/**
 * The LSM static call table: one fixed row of MAX_LSM_COUNT slots per hook,
 * the registration entries that point at a row, the backward fill that packs
 * a hook's callbacks into the tail of its row, the dispatch walk over that
 * tail, and the ordering classes and flag bits of an LSM declaration.
 */
module LsmHooks {
  import opened Optional

  /** A concrete callback implementation (a member of union security_list_options). */
  type Callback = nat

  /** An LSM hook, i.e. one row of the static call table; the hook enumeration itself is not modelled. */
  type HookId = nat

  /**
   * struct security_hook_list: `scalls` names the row whose first slot it points at,
   * `lsm` is the owning module's name (unset until the entry is registered).
   */
  datatype SecurityHookList = SecurityHookList(scalls: HookId, hook: Callback, lsm: Option<string>, defaultState: bool)

  /**
   * struct lsm_static_call, without the code-patching part: `hl` is the entry the
   * slot's static call was pointed at, `active` is the state of its static key.
   */
  datatype LsmStaticCall = LsmStaticCall(hl: Option<SecurityHookList>, active: bool)

  /** A slot no callback has been copied into: no entry, key disabled. */
  const Unused := LsmStaticCall(None, false)

  /** A slot's key is enabled exactly when it holds an entry whose default state is on. */
  predicate ActiveConsistent(s: LsmStaticCall) {
    s.active <==> s.hl.Some? && s.hl.value.defaultState
  }

  /** LSM_HOOK_INIT: an entry for hook `name`, enabled by default. */
  function LsmHookInit(name: HookId, callback: Callback): (r: SecurityHookList)
    ensures r.scalls == name && r.hook == callback && r.lsm.None?
    ensures r.defaultState
  {
    SecurityHookList(name, callback, None, true)
  }

  /** LSM_HOOK_INIT_DISABLED: the same entry with its static key disabled by default. */
  function LsmHookInitDisabled(name: HookId, callback: Callback): (r: SecurityHookList)
    ensures r.scalls == name && r.hook == callback && r.lsm.None?
    ensures !r.defaultState
  {
    SecurityHookList(name, callback, None, false)
  }

  /** The two initialisers agree on everything but the default state. */
  lemma HookInitVariants(name: HookId, callback: Callback)
    ensures LsmHookInitDisabled(name, callback) == LsmHookInit(name, callback).(defaultState := false)
    ensures LsmHookInit(name, callback) != LsmHookInitDisabled(name, callback)
    ensures LsmHookInit(name, callback).scalls == LsmHookInitDisabled(name, callback).scalls == name
  {
  }

  /** The slot an entry is copied into: the call points at it, the key follows its default state. */
  function SlotFor(e: SecurityHookList): (s: LsmStaticCall)
    ensures s.hl == Some(e)
    ensures ActiveConsistent(s)
  {
    LsmStaticCall(Some(e), e.defaultState)
  }

  /**
   * Slot `i` of a row of `count` slots after the entries `es` were filled in
   * backwards: the last entry sits in the last slot, the first in slot count - |es|.
   */
  function LayoutAt(count: nat, es: seq<SecurityHookList>, i: nat): LsmStaticCall
    requires |es| <= count && i < count
  {
    if i < count - |es| then Unused else SlotFor(es[i - (count - |es|)])
  }

  /** The whole row, as a sequence. */
  function Layout(count: nat, es: seq<SecurityHookList>): (row: seq<LsmStaticCall>)
    requires |es| <= count
    ensures |row| == count
  {
    seq(count, i requires 0 <= i < count => LayoutAt(count, es, i))
  }

  /** Contiguity: exactly the last |es| slots are used, every lower slot is empty, and keys follow default states. */
  lemma LayoutOccupancy(count: nat, es: seq<SecurityHookList>, i: nat)
    requires |es| <= count && i < count
    ensures LayoutAt(count, es, i).hl.Some? <==> count - |es| <= i
    ensures i < count - |es| ==> LayoutAt(count, es, i) == Unused
    ensures ActiveConsistent(LayoutAt(count, es, i))
  {
  }

  /** The entries held by the used slots of a row, from the first slot to the last. */
  function Occupants(row: seq<LsmStaticCall>): seq<SecurityHookList> {
    if row == [] then []
    else (if row[0].hl.Some? then [row[0].hl.value] else []) + Occupants(row[1..])
  }

  lemma {:induction false} OccupantsAppend(a: seq<LsmStaticCall>, b: seq<LsmStaticCall>)
    ensures Occupants(a + b) == Occupants(a) + Occupants(b)
  {
    if a != [] {
      assert (a + b)[1..] == a[1..] + b;
      OccupantsAppend(a[1..], b);
    } else {
      assert a + b == b;
    }
  }

  lemma {:induction false} OccupantsOfUnused(row: seq<LsmStaticCall>)
    requires forall i :: 0 <= i < |row| ==> row[i] == Unused
    ensures Occupants(row) == []
  {
    if row != [] {
      OccupantsOfUnused(row[1..]);
    }
  }

  lemma {:induction false} OccupantsOfFilled(row: seq<LsmStaticCall>, es: seq<SecurityHookList>)
    requires |row| == |es|
    requires forall k :: 0 <= k < |es| ==> row[k] == SlotFor(es[k])
    ensures Occupants(row) == es
  {
    if es != [] {
      OccupantsOfFilled(row[1..], es[1..]);
      assert es == [es[0]] + es[1..];
    }
  }

  /**
   * Walking a filled row from its first slot to its last meets every entry that was
   * filled in exactly once, in the order given, and no other.
   */
  lemma OccupantsOfLayout(count: nat, es: seq<SecurityHookList>)
    requires |es| <= count
    ensures Occupants(Layout(count, es)) == es
  {
    var row := Layout(count, es);
    var base := count - |es|;
    assert row == row[..base] + row[base..];
    OccupantsAppend(row[..base], row[base..]);
    OccupantsOfUnused(row[..base]);
    OccupantsOfFilled(row[base..], es);
  }

  /** The callbacks whose static key is enabled, in the order of the entries. */
  function ActiveCallbacks(es: seq<SecurityHookList>): seq<Callback> {
    if es == [] then []
    else
      var last := es[|es| - 1];
      ActiveCallbacks(es[..|es| - 1]) + (if last.defaultState then [last.hook] else [])
  }

  /** A callback runs exactly when some entry carrying it is enabled by default; never more often than there are entries. */
  lemma {:induction false} ActiveCallbacksMembers(es: seq<SecurityHookList>, c: Callback)
    ensures |ActiveCallbacks(es)| <= |es|
    ensures c in ActiveCallbacks(es) <==> exists k :: 0 <= k < |es| && es[k].defaultState && es[k].hook == c
  {
    if es != [] {
      var init := es[..|es| - 1];
      ActiveCallbacksMembers(init, c);
      if c in ActiveCallbacks(init) {
        var k :| 0 <= k < |init| && init[k].defaultState && init[k].hook == c;
        assert es[k] == init[k];
      }
      if exists k :: 0 <= k < |es| && es[k].defaultState && es[k].hook == c {
        var k :| 0 <= k < |es| && es[k].defaultState && es[k].hook == c;
        if k < |init| {
          assert init[k] == es[k];
        }
      }
    }
  }

  /** `ks` lists exactly the enabled positions of `es`, in increasing order, and the callbacks at them are `cs`. */
  ghost predicate EnabledPositions(es: seq<SecurityHookList>, cs: seq<Callback>, ks: seq<nat>) {
    |ks| == |cs| &&
    (forall j :: 0 <= j < |ks| ==> ks[j] < |es| && es[ks[j]].defaultState && cs[j] == es[ks[j]].hook) &&
    (forall i, j :: 0 <= i < j < |ks| ==> ks[i] < ks[j]) &&
    (forall k :: 0 <= k < |es| && es[k].defaultState ==> k in ks)
  }

  /** Appending a disabled entry keeps the positions. */
  lemma EnabledPositionsSkip(es: seq<SecurityHookList>, cs: seq<Callback>, ks: seq<nat>, e: SecurityHookList)
    requires EnabledPositions(es, cs, ks) && !e.defaultState
    ensures EnabledPositions(es + [e], cs, ks)
  {
    var es' := es + [e];
    forall j | 0 <= j < |ks| ensures es'[ks[j]] == es[ks[j]] { }
    forall k | 0 <= k < |es'| && es'[k].defaultState ensures k in ks {
      assert k < |es| && es[k] == es'[k];
    }
  }

  /** Appending an enabled entry adds its position and its callback at the end. */
  lemma EnabledPositionsTake(es: seq<SecurityHookList>, cs: seq<Callback>, ks: seq<nat>, e: SecurityHookList)
    requires EnabledPositions(es, cs, ks) && e.defaultState
    ensures EnabledPositions(es + [e], cs + [e.hook], ks + [|es|])
  {
    var es', cs', ks' := es + [e], cs + [e.hook], ks + [|es|];
    forall j | 0 <= j < |ks'|
      ensures ks'[j] < |es'| && es'[ks'[j]].defaultState && cs'[j] == es'[ks'[j]].hook
    {
      if j < |ks| {
        assert ks'[j] == ks[j] && cs'[j] == cs[j] && es'[ks[j]] == es[ks[j]];
      }
    }
    forall i, j | 0 <= i < j < |ks'| ensures ks'[i] < ks'[j] {
      if j == |ks| {
        assert ks'[i] == ks[i] < |es|;
      }
    }
    forall k | 0 <= k < |es'| && es'[k].defaultState ensures k in ks' {
      if k < |es| {
        assert es[k] == es'[k] && k in ks;
      } else {
        assert ks'[|ks|] == k;
      }
    }
  }

  /**
   * The exact value of the called sequence: it is the callbacks of the entries at
   * the positions `ks`, and `ks` lists every position whose entry is enabled by
   * default, in increasing order, and no other. So each enabled entry is called
   * exactly once, in entry order, and a disabled entry never.
   */
  lemma {:induction false} ActiveCallbacksPositions(es: seq<SecurityHookList>) returns (ks: seq<nat>)
    ensures |ks| == |ActiveCallbacks(es)|
    ensures forall j :: 0 <= j < |ks| ==> ks[j] < |es| && es[ks[j]].defaultState && ActiveCallbacks(es)[j] == es[ks[j]].hook
    ensures forall i, j :: 0 <= i < j < |ks| ==> ks[i] < ks[j]
    ensures forall k :: 0 <= k < |es| && es[k].defaultState ==> k in ks
  {
    ks := ActiveCallbacksPositionsOf(es);
  }

  lemma {:induction false} ActiveCallbacksPositionsOf(es: seq<SecurityHookList>) returns (ks: seq<nat>)
    ensures EnabledPositions(es, ActiveCallbacks(es), ks)
  {
    if es == [] {
      ks := [];
    } else {
      var n := |es| - 1;
      var init := es[..n];
      var ks0 := ActiveCallbacksPositionsOf(init);
      assert es == init + [es[n]];
      if es[n].defaultState {
        EnabledPositionsTake(init, ActiveCallbacks(init), ks0, es[n]);
        ks := ks0 + [n];
      } else {
        EnabledPositionsSkip(init, ActiveCallbacks(init), ks0, es[n]);
        ks := ks0;
      }
    }
  }

  /** When every entry is enabled by default, every entry's callback runs, in order. */
  lemma {:induction false} ActiveCallbacksAllEnabled(es: seq<SecurityHookList>)
    requires forall k :: 0 <= k < |es| ==> es[k].defaultState
    ensures ActiveCallbacks(es) == seq(|es|, k requires 0 <= k < |es| => es[k].hook)
  {
    if es != [] {
      ActiveCallbacksAllEnabled(es[..|es| - 1]);
    }
  }

  /** The entries of `hooks` that belong to hook `h`, in order, with their owner set to `lsm`. */
  function Registered(hooks: seq<SecurityHookList>, lsm: string, h: HookId): seq<SecurityHookList> {
    if hooks == [] then []
    else
      var last := hooks[|hooks| - 1];
      Registered(hooks[..|hooks| - 1], lsm, h) + (if last.scalls == h then [last.(lsm := Some(lsm))] else [])
  }

  /** An entry is registered for `h` exactly when it is one of the given entries for `h`, named after `lsm`. */
  lemma {:induction false} RegisteredMembers(hooks: seq<SecurityHookList>, lsm: string, h: HookId, e: SecurityHookList)
    ensures e in Registered(hooks, lsm, h) <==>
              exists k :: 0 <= k < |hooks| && hooks[k].scalls == h && e == hooks[k].(lsm := Some(lsm))
  {
    if hooks != [] {
      var init := hooks[..|hooks| - 1];
      RegisteredMembers(init, lsm, h, e);
      if e in Registered(init, lsm, h) {
        var k :| 0 <= k < |init| && init[k].scalls == h && e == init[k].(lsm := Some(lsm));
        assert hooks[k] == init[k];
      }
      if exists k :: 0 <= k < |hooks| && hooks[k].scalls == h && e == hooks[k].(lsm := Some(lsm)) {
        var k :| 0 <= k < |hooks| && hooks[k].scalls == h && e == hooks[k].(lsm := Some(lsm));
        if k < |init| {
          assert init[k] == hooks[k];
        }
      }
    }
  }

  /**
   * struct lsm_static_calls_table, with the per-hook lists that security_add_hooks
   * appends to before the callbacks are copied into the table.
   */
  class StaticCallsTable {
    /** The number of hooks, i.e. of rows. */
    const hookCount: nat
    /** MAX_LSM_COUNT: the number of slots in every row. */
    const maxLsmCount: nat
    var slots: array2<LsmStaticCall>
    /** Per hook, the registered entries in registration order. */
    var heads: seq<seq<SecurityHookList>>
    /** Whether the callbacks have been copied into the table. */
    var populated: bool

    ghost predicate Shaped()
      reads this
    {
      maxLsmCount > 0 &&
      slots.Length0 == hookCount && slots.Length1 == maxLsmCount &&
      |heads| == hookCount &&
      (forall h, k :: 0 <= h < |heads| && 0 <= k < |heads[h]| ==> heads[h][k].scalls == h)
    }

    ghost predicate Valid()
      reads this, slots
    {
      Shaped() &&
      (!populated ==>
        forall h, i :: 0 <= h < hookCount && 0 <= i < maxLsmCount ==> slots[h, i] == Unused) &&
      (populated ==> forall h :: 0 <= h < hookCount ==> |heads[h]| <= maxLsmCount) &&
      (populated ==>
        forall h, i :: 0 <= h < hookCount && 0 <= i < maxLsmCount ==>
          slots[h, i] == LayoutAt(maxLsmCount, heads[h], i))
    }

    /** The row of hook `h`, as a sequence of slots. */
    ghost function Row(h: HookId): (row: seq<LsmStaticCall>)
      requires Shaped() && h < hookCount
      reads this, slots
      ensures |row| == maxLsmCount
    {
      seq(maxLsmCount, i requires 0 <= i < maxLsmCount && h < slots.Length0 && maxLsmCount == slots.Length1
                           reads this, slots => slots[h, i])
    }

    /** An empty table: every row holds MAX_LSM_COUNT unused slots. */
    constructor (hookCount: nat, maxLsmCount: nat)
      requires maxLsmCount > 0
      ensures Valid() && fresh(slots)
      ensures this.hookCount == hookCount && this.maxLsmCount == maxLsmCount
      ensures !populated && heads == seq(hookCount, _ => [])
    {
      this.hookCount := hookCount;
      this.maxLsmCount := maxLsmCount;
      slots := new LsmStaticCall[hookCount, maxLsmCount]((_, _) => Unused);
      heads := seq(hookCount, _ => []);
      populated := false;
    }

    /**
     * security_add_hooks: every entry of `hooks` is marked as owned by `lsm` and
     * appended, in order, to the list of the hook it points at.
     */
    method AddHooks(hooks: seq<SecurityHookList>, lsm: string)
      requires Valid() && !populated
      requires forall k :: 0 <= k < |hooks| ==> hooks[k].scalls < hookCount
      modifies this
      ensures Valid() && !populated && slots == old(slots)
      ensures |heads| == hookCount
      ensures forall h :: 0 <= h < hookCount ==> heads[h] == old(heads[h]) + Registered(hooks, lsm, h)
    {
      var k := 0;
      while k < |hooks|
        invariant 0 <= k <= |hooks|
        invariant slots == old(slots) && !populated
        invariant |heads| == hookCount
        invariant forall h, j :: 0 <= h < |heads| && 0 <= j < |heads[h]| ==> heads[h][j].scalls == h
        invariant forall h :: 0 <= h < hookCount ==> heads[h] == old(heads[h]) + Registered(hooks[..k], lsm, h)
      {
        var e := hooks[k].(lsm := Some(lsm));
        heads := heads[e.scalls := heads[e.scalls] + [e]];
        assert hooks[..k + 1][..k] == hooks[..k];
        k := k + 1;
      }
      assert hooks[..|hooks|] == hooks;
    }

    /**
     * Copies the list of hook `h` into its row, filled backwards: the loop runs from
     * the last slot downward, so the last entry lands in slot MAX_LSM_COUNT - 1 and
     * the first in slot MAX_LSM_COUNT - n. No other row is touched.
     */
    method FillRow(h: HookId)
      requires Shaped() && h < hookCount && |heads[h]| <= maxLsmCount
      requires forall i :: 0 <= i < maxLsmCount ==> slots[h, i] == Unused
      modifies slots
      ensures forall i :: 0 <= i < maxLsmCount ==> slots[h, i] == LayoutAt(maxLsmCount, heads[h], i)
      ensures forall g, i :: 0 <= g < hookCount && 0 <= i < maxLsmCount && g != h ==> slots[g, i] == old(slots[g, i])
    {
      var es := heads[h];
      var base := maxLsmCount - |es|;
      var i := maxLsmCount;
      while i > base
        invariant base <= i <= maxLsmCount
        invariant forall j :: i <= j < maxLsmCount ==> slots[h, j] == LayoutAt(maxLsmCount, es, j)
        invariant forall j :: 0 <= j < i ==> slots[h, j] == Unused
        invariant forall g, j :: 0 <= g < hookCount && 0 <= j < maxLsmCount && g != h ==> slots[g, j] == old(slots[g, j])
      {
        i := i - 1;
        var e := es[i - base];
        slots[h, i] := LsmStaticCall(Some(e), false);
        if e.defaultState {
          slots[h, i] := slots[h, i].(active := true);
        }
      }
    }

    /**
     * Copies every hook's callbacks into the table once the LSMs are initialized.
     * A hook with more entries than MAX_LSM_COUNT is a fatal configuration error:
     * `ok` is false and nothing is written.
     */
    method Populate() returns (ok: bool)
      requires Valid() && !populated
      modifies this, slots
      ensures Valid() && slots == old(slots) && heads == old(heads)
      ensures ok <==> forall h :: 0 <= h < hookCount ==> |heads[h]| <= maxLsmCount
      ensures populated == ok
      ensures !ok ==> forall h, i :: 0 <= h < hookCount && 0 <= i < maxLsmCount ==> slots[h, i] == Unused
      ensures ok ==> forall h, i :: 0 <= h < hookCount && 0 <= i < maxLsmCount ==>
                       (slots[h, i].hl.Some? <==> maxLsmCount - |heads[h]| <= i) && ActiveConsistent(slots[h, i])
    {
      var h := 0;
      while h < hookCount
        invariant 0 <= h <= hookCount
        invariant forall g :: 0 <= g < h ==> |heads[g]| <= maxLsmCount
        invariant slots == old(slots) && heads == old(heads) && !populated
      {
        if |heads[h]| > maxLsmCount {
          return false;
        }
        h := h + 1;
      }
      h := 0;
      while h < hookCount
        invariant 0 <= h <= hookCount
        invariant slots == old(slots) && heads == old(heads) && Shaped()
        invariant forall g :: 0 <= g < hookCount ==> |heads[g]| <= maxLsmCount
        invariant forall g, i :: 0 <= g < h && 0 <= i < maxLsmCount ==> slots[g, i] == LayoutAt(maxLsmCount, heads[g], i)
        invariant forall g, i :: h <= g < hookCount && 0 <= i < maxLsmCount ==> slots[g, i] == Unused
      {
        FillRow(h);
        h := h + 1;
      }
      populated := true;
      ok := true;
      forall g, i | 0 <= g < hookCount && 0 <= i < maxLsmCount
        ensures (slots[g, i].hl.Some? <==> maxLsmCount - |heads[g]| <= i) && ActiveConsistent(slots[g, i])
      {
        LayoutOccupancy(maxLsmCount, heads[g], i);
      }
    }

    /**
     * The dispatch walk of hook `h`: starts at the first used slot, MAX_LSM_COUNT - n,
     * and runs to the end of the row. `visited` is every entry met on the way,
     * `called` the callbacks whose static key was enabled.
     */
    method Dispatch(h: HookId) returns (visited: seq<SecurityHookList>, called: seq<Callback>)
      requires Valid() && populated && h < hookCount
      ensures visited == heads[h]
      ensures called == ActiveCallbacks(heads[h])
    {
      var es := heads[h];
      var base := maxLsmCount - |es|;
      var i := base;
      visited, called := [], [];
      while i < maxLsmCount
        invariant base <= i <= maxLsmCount
        invariant visited == es[..i - base]
        invariant called == ActiveCallbacks(visited)
      {
        var s := slots[h, i];
        if s.hl.Some? {
          visited := visited + [s.hl.value];
          if s.active {
            called := called + [s.hl.value.hook];
          }
        }
        assert es[..i + 1 - base] == es[..i - base] + [es[i - base]];
        assert visited[..|visited| - 1] == es[..i - base];
        i := i + 1;
      }
      assert es[..maxLsmCount - base] == es;
    }

    /** After population a row is exactly the backward-filled layout of its hook's entries. */
    lemma RowIsLayout(h: HookId)
      requires Valid() && populated && h < hookCount
      ensures Row(h) == Layout(maxLsmCount, heads[h])
      ensures Occupants(Row(h)) == heads[h]
    {
      OccupantsOfLayout(maxLsmCount, heads[h]);
    }
  }

  /** enum lsm_order: the ordering class of an LSM. */
  datatype LsmOrder = OrderFirst | OrderMutable | OrderLast

  /** The numeric value of each ordering class. */
  function OrderValue(o: LsmOrder): (v: int)
    ensures -1 <= v <= 1
  {
    match o
    case OrderFirst => -1
    case OrderMutable => 0
    case OrderLast => 1
  }

  /** The ordering class a stored enum value denotes, if any. */
  function OrderOfValue(v: int): (o: Option<LsmOrder>)
    ensures o.Some? <==> -1 <= v <= 1
    ensures o.Some? ==> OrderValue(o.value) == v
  {
    if v == -1 then Some(OrderFirst)
    else if v == 0 then Some(OrderMutable)
    else if v == 1 then Some(OrderLast)
    else None
  }

  lemma OrderValueRoundTrip(o: LsmOrder)
    ensures OrderOfValue(OrderValue(o)) == Some(o)
  {
  }

  /** `a` sorts strictly before `b`. */
  predicate OrderBefore(a: LsmOrder, b: LsmOrder) {
    OrderValue(a) < OrderValue(b)
  }

  /** FIRST < MUTABLE < LAST, and the comparison is a strict total order. */
  lemma OrderIsStrictTotal(a: LsmOrder, b: LsmOrder, c: LsmOrder)
    ensures OrderBefore(OrderFirst, OrderMutable) && OrderBefore(OrderMutable, OrderLast)
    ensures !OrderBefore(a, a)
    ensures a != b ==> OrderBefore(a, b) || OrderBefore(b, a)
    ensures OrderBefore(a, b) && OrderBefore(b, c) ==> OrderBefore(a, c)
  {
  }

  /** LSM_FLAG_LEGACY_MAJOR, BIT(0). */
  const LsmFlagLegacyMajor: bv64 := 1 << 0
  /** LSM_FLAG_EXCLUSIVE, BIT(1). */
  const LsmFlagExclusive: bv64 := 1 << 1

  function SetFlag(flags: bv64, flag: bv64): bv64 {
    flags | flag
  }

  predicate HasFlag(flags: bv64, flag: bv64) {
    flags & flag != 0
  }

  /** Each flag is a single bit and the two bits differ. */
  lemma FlagsAreDistinctBits()
    ensures LsmFlagLegacyMajor != 0 && LsmFlagLegacyMajor & (LsmFlagLegacyMajor - 1) == 0
    ensures LsmFlagExclusive != 0 && LsmFlagExclusive & (LsmFlagExclusive - 1) == 0
    ensures LsmFlagLegacyMajor & LsmFlagExclusive == 0
  {
  }

  /** Setting either flag makes it test true and never changes the test of the other. */
  lemma FlagsAreIndependent(flags: bv64)
    ensures HasFlag(SetFlag(flags, LsmFlagLegacyMajor), LsmFlagLegacyMajor)
    ensures HasFlag(SetFlag(flags, LsmFlagExclusive), LsmFlagExclusive)
    ensures HasFlag(SetFlag(flags, LsmFlagLegacyMajor), LsmFlagExclusive) == HasFlag(flags, LsmFlagExclusive)
    ensures HasFlag(SetFlag(flags, LsmFlagExclusive), LsmFlagLegacyMajor) == HasFlag(flags, LsmFlagLegacyMajor)
  {
  }

  /**
   * struct lsm_info, without the optional enable switch and blob sizes.
   * `order` is stored as the enum's integer value.
   */
  datatype LsmInfo = LsmInfo(name: string, order: int, flags: bv64, init: Callback)

  /**
   * A DEFINE_LSM initialiser that gives only the name and the init function:
   * every other field is zero-filled.
   */
  function DefineLsm(name: string, init: Callback): (info: LsmInfo)
    ensures info.name == name && info.init == init
    ensures OrderOfValue(info.order) == Some(OrderMutable)
    ensures info.flags == 0
  {
    LsmInfo(name, 0, 0, init)
  }

  /** A declaration without an explicit order is MUTABLE and carries no flags. */
  lemma DefaultOrderIsMutable(name: string, init: Callback)
    ensures OrderOfValue(DefineLsm(name, init).order) == Some(OrderMutable)
    ensures !HasFlag(DefineLsm(name, init).flags, LsmFlagLegacyMajor)
    ensures !HasFlag(DefineLsm(name, init).flags, LsmFlagExclusive)
  {
  }
}
