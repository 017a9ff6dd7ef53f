/** A platform that lists everything: RP by RP, and for each RP its keys, with the totals it is
    told as its only guide. Such a sweep reports every stored key exactly once. */
module Sweeps {
  import opened CtapErrors
  import opened Sha256Spec
  import opened ResidentKeys
  import opened Enumeration

  // ----- the platform -----

  /** `n` RkNext commands, up to the first that reports nothing: the slots reported. */
  function RkNexts(st: Store, c: Cursor, n: nat): (Cursor, seq<int>)
    decreases n
  {
    if n == 0 then (c, [])
    else
      var r := Handle(st, c, RkNext);
      match r.reply
      case Rk(slot, _) => var (c2, slots) := RkNexts(st, r.cursor, n - 1); (c2, [slot] + slots)
      case _ => (r.cursor, [])
  }

  /** RkBegin and as many RkNext commands as its total asks for. */
  function ListKeys(st: Store, c: Cursor, h: Hash): (Cursor, seq<int>) {
    var r := Handle(st, c, RkBegin(h));
    match r.reply
    case Rk(slot, total) =>
      if total == 0 then (r.cursor, [slot])
      else var (c2, slots) := RkNexts(st, r.cursor, total - 1); (c2, [slot] + slots)
    case _ => (r.cursor, [])
  }

  /** The keys of the RP just reported and of `n` further ones. */
  function ListRps(st: Store, r: Result, n: nat): (Cursor, seq<int>)
    decreases n
  {
    if !r.reply.Rp? || r.reply.slot >= RK_NUM then (r.cursor, [])
    else
      var (c, slots) := ListKeys(st, r.cursor, st.slots[r.reply.slot].id.rpIdHash);
      if n == 0 then (c, slots)
      else var (c2, more) := ListRps(st, Handle(st, c, RpNext), n - 1); (c2, slots + more)
  }

  function Sweep(st: Store, c: Cursor): (Cursor, seq<int>) {
    var r := Handle(st, c, RpBegin);
    ListRps(st, r, if r.reply.Rp? && r.reply.total > 0 then r.reply.total - 1 else 0)
  }

  // ----- what it should get -----

  /** The slots of RP `h`, and all slots grouped by RP, from `from` on. */
  function RkList(s: Slots, h: Hash, from: nat): seq<int>
    requires from <= RK_NUM
    decreases RK_NUM - from
  {
    if from == RK_NUM then []
    else if s[from].id.rpIdHash == h then [from] + RkList(s, h, from + 1)
    else RkList(s, h, from + 1)
  }

  function ByRp(s: Slots, from: nat): seq<int>
    requires from <= RK_NUM
    decreases RK_NUM - from
  {
    if from == RK_NUM then []
    else if FirstAt(s, from) then RkList(s, s[from].id.rpIdHash, 0) + ByRp(s, from + 1)
    else ByRp(s, from + 1)
  }

  lemma {:induction false} RkListSkips(s: Slots, h: Hash, from: nat)
    requires from <= RK_NUM
    ensures var i := NextRk(s, h, from);
            RkList(s, h, from) == if i < 0 then [] else [i] + RkList(s, h, i + 1)
    decreases RK_NUM - from
  {
    if from == RK_NUM {
      assert NextRk(s, h, from) == -1;
    } else if s[from].id.rpIdHash == h {
      assert NextRk(s, h, from) == from;
    } else {
      RkListSkips(s, h, from + 1);
    }
  }

  lemma {:induction false} ByRpSkips(s: Slots, from: nat)
    requires from <= RK_NUM
    ensures var i := NextRp(s, from);
            ByRp(s, from) == if i < 0 then [] else RkList(s, s[i].id.rpIdHash, 0) + ByRp(s, i + 1)
    decreases RK_NUM - from
  {
    hide RkList, FirstAt;
    if from < RK_NUM && !FirstAt(s, from) { ByRpSkips(s, from + 1); }
  }

  // ----- what it gets -----

  lemma RkNextsStep(st: Store, c: Cursor, n: nat)
    requires st.stored > 0 && c.rkAuth && n > 0
    ensures c.rk >= 0 ==>
              var (c2, slots) := RkNexts(st, Cursor(c.rp, NextRk(st.slots, st.slots[c.rk].id.rpIdHash, c.rk + 1),
                  c.rpAuth, true), n - 1);
              RkNexts(st, c, n) == (c2, [c.rk] + slots)
  {
    hide NextRk;
  }

  lemma {:induction false} RkNextsReport(st: Store, c: Cursor, h: Hash, from: nat)
    requires st.stored > 0 && from <= RK_NUM
    requires c.rkAuth && c.rk == NextRk(st.slots, h, from)
    ensures RkNexts(st, c, RkCount(st.slots, h, from)) == (Cursor(c.rp, -1, c.rpAuth, true), RkList(st.slots, h, from))
    decreases RK_NUM - from
  {
    hide NextRk, RkCount, RkList, Handle, RkNexts;
    RkListSkips(st.slots, h, from);
    RkCountSkips(st.slots, h, from);
    if c.rk >= 0 {
      RkNextsStep(st, c, RkCount(st.slots, h, from));
      RkNextsReport(st, Cursor(c.rp, NextRk(st.slots, h, c.rk + 1), c.rpAuth, true), h, c.rk + 1);
    } else {
      NoRkNexts(st, c);
    }
  }

  lemma NoRkNexts(st: Store, c: Cursor)
    ensures RkNexts(st, c, 0) == (c, [])
  {
  }

  lemma NextRkFinds(s: Slots, h: Hash, from: nat)
    requires from <= RK_NUM
    ensures var i := NextRk(s, h, from); i >= 0 ==> from <= i && s[i].id.rpIdHash == h
  {
  }

  /** Listing the keys of an RP reports exactly its slots. It leaves the RP enumeration where it
      was, except that an RP without slots is an error, which ends it. */
  lemma KeysAreListed(st: Store, c: Cursor, h: Hash)
    requires st.stored > 0
    ensures ListKeys(st, c, h).1 == RkList(st.slots, h, 0)
    ensures ListKeys(st, c, h).0.rp == c.rp
    ensures ListKeys(st, c, h).0.rpAuth <==> c.rpAuth && RkCount(st.slots, h, 0) > 0
  {
    hide NextRk, RkCount, RkList, RkNexts;
    var i := NextRk(st.slots, h, 0);
    RkListSkips(st.slots, h, 0);
    RkCountSkips(st.slots, h, 0);
    if i >= 0 {
      RkNextsReport(st, Handle(st, c, RkBegin(h)).cursor, h, i + 1);
    }
  }

  /** The answer that reports the next RP from `from` on. */
  lemma RpAnswer(st: Store, c: Cursor, from: nat, q: Request)
    requires st.stored > 0 && from <= RK_NUM && NextRp(st.slots, from) >= 0
    requires q == RpNext || (q == RpBegin && from == 0)
    requires q == RpNext ==> c.rpAuth && c.rp == NextRp(st.slots, from)
    ensures var (r, i) := (Handle(st, c, q), NextRp(st.slots, from));
            r.reply.Rp? && r.reply.slot == i && r.cursor.rp == NextRp(st.slots, i + 1) && r.cursor.rpAuth
  {
    hide NextRp, RpCount;
  }

  lemma ListRpsStep(st: Store, r: Result, n: nat)
    requires r.reply.Rp? && r.reply.slot < RK_NUM
    ensures var (c, slots) := ListKeys(st, r.cursor, st.slots[r.reply.slot].id.rpIdHash);
            ListRps(st, r, n) == if n == 0 then (c, slots)
              else var (c2, more) := ListRps(st, Handle(st, c, RpNext), n - 1); (c2, slots + more)
  {
    hide Handle, ListKeys;
  }

  lemma {:induction false} RpsAreListed(st: Store, c: Cursor, from: nat, q: Request, n: nat)
    requires st.stored > 0 && from <= RK_NUM && RpCount(st.slots, from) == n + 1
    requires q == RpNext || (q == RpBegin && from == 0)
    requires q == RpNext ==> c.rpAuth && c.rp == NextRp(st.slots, from)
    ensures var (c2, slots) := ListRps(st, Handle(st, c, q), n);
            slots == ByRp(st.slots, from) && c2.rp == -1
    decreases n
  {
    hide ListKeys, ListRps, Handle, RpCount, RkCount, RkList, ByRp, NextRp, NextRk, FirstAt;
    var s, i := st.slots, NextRp(st.slots, from);
    ByRpSkips(s, from);
    RpCountSkips(s, from);
    NextRpFinds(s, from);
    ByRpSkips(s, i + 1);
    RpCountSkips(s, i + 1);
    var r := Handle(st, c, q);
    RpAnswer(st, c, from, q);
    ListRpsStep(st, r, n);
    KeysAreListed(st, r.cursor, s[i].id.rpIdHash);
    SlotCountsItself(s, i, 0);
    var (c2, slots) := ListKeys(st, r.cursor, s[i].id.rpIdHash);
    if n > 0 { RpsAreListed(st, c2, i + 1, RpNext, n - 1); }
  }

  lemma NextRpFinds(s: Slots, from: nat)
    requires from <= RK_NUM
    ensures var i := NextRp(s, from); i >= 0 ==> from <= i && FirstAt(s, i)
  {
    hide FirstAt;
  }

  lemma {:induction false} SlotCountsItself(s: Slots, i: nat, from: nat)
    requires from <= i < RK_NUM
    ensures RkCount(s, s[i].id.rpIdHash, from) > 0
    decreases i - from
  {
    if from < i { SlotCountsItself(s, i, from + 1); }
  }

  // ----- the groups partition the store -----

  lemma {:induction false} RkListOnce(s: Slots, h: Hash, from: nat, i: int)
    requires from <= RK_NUM
    ensures multiset(RkList(s, h, from))[i] == if from <= i < RK_NUM && s[i].id.rpIdHash == h then 1 else 0
    decreases RK_NUM - from
  {
    if from < RK_NUM { RkListOnce(s, h, from + 1, i); }
  }

  /** `f` is the first slot of its RP and shares it with `i` exactly when `i` is valid and the scan
      for its RP stops first at `f`. */
  lemma FirstIsNext(s: Slots, f: nat, i: nat)
    requires Marked(s) && f < RK_NUM && i < RK_NUM
    ensures FirstAt(s, f) && s[f].id.rpIdHash == s[i].id.rpIdHash
            <==> IsValid(s[i]) && NextRk(s, s[i].id.rpIdHash, 0) == f
  {
    hide IsValid;
    var n := NextRk(s, s[i].id.rpIdHash, 0);
    NextRkFinds(s, s[i].id.rpIdHash, 0);
  }

  lemma {:induction false} ByRpOnce(s: Slots, from: nat, i: int)
    requires Marked(s) && from <= RK_NUM
    ensures multiset(ByRp(s, from))[i]
            == if 0 <= i < RK_NUM && IsValid(s[i]) && NextRk(s, s[i].id.rpIdHash, 0) >= from then 1 else 0
    decreases RK_NUM - from
  {
    hide RkList, FirstAt, NextRk, IsValid;
    if from < RK_NUM {
      ByRpOnce(s, from + 1, i);
      RkListOnce(s, s[from].id.rpIdHash, 0, i);
      if 0 <= i < RK_NUM { FirstIsNext(s, from, i); }
    }
  }

  lemma ByRpIsPartition(s: Slots)
    requires Marked(s)
    ensures multiset(ByRp(s, 0)) == multiset(ValidSlots(s))
  {
    hide Marked, ByRp, IsValid, NextRk;
    forall i: int ensures multiset(ByRp(s, 0))[i] == multiset(ValidSlots(s))[i] {
      ByRpOnce(s, 0, i);
      if 0 <= i < RK_NUM { NextRkExists(s, i, 0); }
    }
  }

  lemma SweepLists(st: Store, c: Cursor)
    requires st.stored > 0 && NextRp(st.slots, 0) >= 0
    ensures Sweep(st, c).1 == ByRp(st.slots, 0) && Sweep(st, c).0.rp == -1
  {
    hide ByRp, NextRk, NextRp, ListRps, RpCount, FirstAt;
    RpCountSkips(st.slots, 0);
    RpsAreListed(st, c, 0, RpBegin, RpCount(st.slots, 0) - 1);
  }

  /** A sweep over a store that is not empty reports every valid slot exactly once and no empty
      one, wherever the cursors were, and has then come to the end of the RPs. */
  lemma SweepIsPartition(st: Store, c: Cursor)
    requires StoreInv(st) && st.stored > 0
    ensures multiset(Sweep(st, c).1) == multiset(ValidSlots(st.slots))
    ensures Handle(st, Sweep(st, c).0, RpNext).reply == Refused(ERR_NO_CREDENTIALS)
  {
    hide StoreInv, Marked, ByRp, Sweep, ValidSlots, NextRp;
    InvIsMarked(st);
    SomeFirst(st);
    SweepLists(st, c);
    ByRpIsPartition(st.slots);
  }

  lemma {:induction false} NextRkExists(s: Slots, i: nat, from: nat)
    requires from <= i < RK_NUM
    ensures from <= NextRk(s, s[i].id.rpIdHash, from)
    decreases i - from
  {
    if from < i { NextRkExists(s, i, from + 1); }
  }
}
