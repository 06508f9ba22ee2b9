/** The slots of all sessions are the selector's table: every step of the protocol is a
    sequence of table operations, each of which finds what it expects. */
module Slots {
  import opened Bytes
  import opened Selectors
  import opened Sessions
  import opened Protocol
  import Attempts

  type Table = map<int, Item>

  function Wanted(o: Option<Interest>): Interest {
    if o.Some? then o.value else OP_NOOP
  }

  /** What the slot at fd holds for a session registered as reg. */
  function SlotFor(reg: Registration, fd: int, id: Id): Item {
    Item(fd, Wanted(if fd == reg.clientFd then reg.client else reg.origin), id)
  }

  /** The selector's table has exactly the slots of the sessions, with their interests
      and attachments. */
  ghost predicate Mirrors(ss: Records, slots: map<int, Id>, t: Table) {
    && (forall fd :: fd in t <==> fd in slots)
    && (forall fd :: fd in slots ==> slots[fd] in ss && t[fd] == SlotFor(ss[slots[fd]].reg, fd, slots[fd]))
  }

  /** The operations that take a session from one registration to another. */
  function Rearm(id: Id, before: Registration, after: Registration): seq<TableOp> {
    (if before.originFd != -1 && before.originFd != after.originFd then [DoUnregister(before.originFd)] else [])
    + (if after.originFd == -1 then []
       else if after.originFd == before.originFd then [DoSetInterest(after.originFd, Wanted(after.origin))]
       else [DoRegister(after.originFd, Wanted(after.origin), id)])
    + [DoSetInterest(after.clientFd, Wanted(after.client))]
  }

  function Leave(reg: Registration): seq<TableOp> {
    [DoUnregister(reg.clientFd)] + if reg.originFd != -1 then [DoUnregister(reg.originFd)] else []
  }

  /** What a step does to the selector's table. */
  ghost function OpsOf(w: World, s: Step): seq<TableOp>
    requires Enabled(w, s)
  {
    match s
    case Accept(id, fd) => [DoRegister(fd, OP_READ, id)]
    case Event(id, after) => Rearm(id, w.sessions[id].reg, after.reg)
    case Close(id, _) => Leave(w.sessions[id].reg)
    case Deliver(after) =>
      var fd := w.notes[0].fd;
      if fd in w.table && w.table[fd] in w.sessions then Rearm(w.table[fd], w.sessions[w.table[fd]].reg, after.reg) else []
    case _ => []
  }

  lemma ApplySingle(t: Table, op: TableOp)
    ensures ApplyAll(t, [op]) == Apply(t, op)
  {
    assert [op][..0] == [];
  }

  /** The table after Rearm: the descriptors given up are gone, those held have their
      interests, the others are untouched. */
  lemma Rearmed(id: Id, before: Registration, after: Registration, t: Table)
    requires after.clientFd == before.clientFd && before.Fits() && after.Fits()
    requires before.originFd != before.clientFd && after.originFd != after.clientFd
    requires forall fd :: fd in Fds(before) ==> fd in t && t[fd].fd == fd && t[fd].owner == id
    requires forall fd :: fd in Fds(after) && fd !in Fds(before) ==> fd !in t
    ensures var u := ApplyAll(t, Rearm(id, before, after));
            && (forall fd :: fd in u <==> fd in Fds(after) || (fd in t && fd !in Fds(before)))
            && (forall fd :: fd in u ==> u[fd] == if fd in Fds(after) then SlotFor(after, fd, id) else t[fd])
  {
    var a: seq<TableOp> := if before.originFd != -1 && before.originFd != after.originFd then [DoUnregister(before.originFd)] else [];
    var b: seq<TableOp> := if after.originFd == -1 then []
             else if after.originFd == before.originFd then [DoSetInterest(after.originFd, Wanted(after.origin))]
             else [DoRegister(after.originFd, Wanted(after.origin), id)];
    var c := DoSetInterest(after.clientFd, Wanted(after.client));
    ApplyConcat(t, a + b, [c]);
    ApplyConcat(t, a, b);
    ApplySingle(ApplyAll(t, a + b), c);
    if a != [] {
      ApplySingle(t, a[0]);
    }
    if b != [] {
      ApplySingle(ApplyAll(t, a), b[0]);
    }
  }

  lemma RearmMirrors(ss: Records, slots: map<int, Id>, t: Table, id: Id, after: Sess)
    requires AllCounted(ss) && Slotted(ss, slots) && Mirrors(ss, slots, t) && id in ss && Counted(after.state, after.reg)
    requires after.reg.clientFd == ss[id].reg.clientFd
    requires forall fd :: fd in Fds(after.reg) && fd !in Fds(ss[id].reg) ==> fd !in slots
    ensures Mirrors(ss[id := after], Retable(slots, id, ss[id].reg, after.reg), ApplyAll(t, Rearm(id, ss[id].reg, after.reg)))
  {
    var before := ss[id].reg;
    assert Counted(ss[id].state, before);
    assert forall fd :: fd in Fds(before) ==> fd in slots && slots[fd] == id;
    Rearmed(id, before, after.reg, t);
    var v := Retable(slots, id, before, after.reg);
    assert forall fd :: fd in v <==> (fd in slots && fd !in Fds(before)) || fd in Fds(after.reg);
    assert forall fd :: fd in v ==> v[fd] == if fd in Fds(after.reg) then id else slots[fd];
  }

  lemma LeaveMirrors(ss: Records, slots: map<int, Id>, t: Table, id: Id)
    requires AllCounted(ss) && Slotted(ss, slots) && Mirrors(ss, slots, t) && id in ss
    ensures Mirrors(ss - {id}, slots - Fds(ss[id].reg), ApplyAll(t, Leave(ss[id].reg)))
  {
    var reg := ss[id].reg;
    ApplySingle(t, DoUnregister(reg.clientFd));
    if reg.originFd != -1 {
      ApplyConcat(t, [DoUnregister(reg.clientFd)], [DoUnregister(reg.originFd)]);
      ApplySingle(ApplyAll(t, [DoUnregister(reg.clientFd)]), DoUnregister(reg.originFd));
    } else {
      assert Leave(reg) == [DoUnregister(reg.clientFd)];
    }
    assert ApplyAll(t, Leave(reg)) == t - Fds(reg);
  }

  lemma DeliverMirrors(w: World, after: Sess, t: Table)
    requires Protocol.Inv(w) && Enabled(w, Deliver(after)) && Mirrors(w.sessions, w.table, t)
    ensures var v := Do(w, Deliver(after));
            Mirrors(v.sessions, v.table, ApplyAll(t, OpsOf(w, Deliver(after))))
  {
    NoteFindsItsSession(w, 0);
    RearmMirrors(w.sessions, w.table, t, w.notes[0].target, after);
  }

  lemma ResolveMirrors(w: World, result: seq<Attempts.Address>, t: Table)
    requires Protocol.Inv(w) && Enabled(w, Resolve(result)) && Mirrors(w.sessions, w.table, t)
    ensures var v := Do(w, Resolve(result));
            Mirrors(v.sessions, v.table, t)
  {
    WriteLands(w);
  }

  /** Every step keeps the sessions' slots and the selector's table the same. */
  lemma StepMirrors(w: World, s: Step, t: Table)
    requires Protocol.Inv(w) && Enabled(w, s) && Mirrors(w.sessions, w.table, t)
    ensures Mirrors(Do(w, s).sessions, Do(w, s).table, ApplyAll(t, OpsOf(w, s)))
  {
    match s
    case Accept(id, fd) => ApplySingle(t, DoRegister(fd, OP_READ, id));
    case Event(id, after) => RearmMirrors(w.sessions, w.table, t, id, after);
    case Close(id, _) => LeaveMirrors(w.sessions, w.table, t, id);
    case Deliver(after) => DeliverMirrors(w, after, t);
    case Resolve(result) => ResolveMirrors(w, result, t);
    case _ =>
  }

  /** The selector's table along a run. */
  ghost function TableAt(ws: seq<World>, steps: seq<Step>, n: nat): Table
    requires Run(ws, steps) && n < |ws|
  {
    if n == 0 then map[] else ApplyAll(TableAt(ws, steps, n - 1), OpsOf(ws[n - 1], steps[n - 1]))
  }

  /** In every run, the slots the sessions believe they hold are those of the table. */
  lemma {:induction false} RunsMirror(ws: seq<World>, steps: seq<Step>, n: nat)
    requires Run(ws, steps) && n < |ws|
    ensures Mirrors(ws[n].sessions, ws[n].table, TableAt(ws, steps, n))
    decreases n
  {
    if n > 0 {
      RunsMirror(ws, steps, n - 1);
      EveryRun(ws, steps, n - 1);
      StepMirrors(ws[n - 1], steps[n - 1], TableAt(ws, steps, n - 1));
    }
  }
}
