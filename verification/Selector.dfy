/** src/shared/selector.c: the descriptor table and the indexes kept beside it. */
module Selectors {
  import opened Bytes

  /** OP_NOOP is neither, OP_READ | OP_WRITE is both. */
  datatype Interest = Interest(read: bool, write: bool)

  const OP_NOOP := Interest(false, false)
  const OP_READ := Interest(true, false)
  const OP_WRITE := Interest(false, true)

  datatype Status = Success | MaxFd | IArgs | FdInUse | NoMem

  /** A table slot; owner stands for the attachment passed to the handlers. */
  datatype Item = Item(fd: int, interest: Interest, owner: nat)

  const FD_UNUSED := -1
  const FD_SETSIZE := 1024

  predicate ValidFd(fd: int) {
    0 <= fd < FD_SETSIZE
  }

  // ----- growth

  function Pow2(k: nat): nat {
    if k == 0 then 1 else 2 * Pow2(k - 1)
  }

  /** How often n can be halved before it is zero. */
  function Bits(n: nat): nat {
    if n == 0 then 0 else 1 + Bits(n / 2)
  }

  function PowerAbove(n: nat): nat {
    Pow2(Bits(n))
  }

  function Capacity(n: nat): nat {
    (if PowerAbove(n) > FD_SETSIZE then FD_SETSIZE else PowerAbove(n)) + 1
  }

  lemma {:induction false} Pow2Monotone(j: nat, k: nat)
    requires j <= k
    ensures Pow2(j) <= Pow2(k)
  {
    if j < k {
      Pow2Monotone(j, k - 1);
    }
  }

  /** PowerAbove(n) is the least power of two strictly above n. */
  lemma {:induction false} PowerAboveIsLeast(n: nat)
    ensures PowerAbove(n) > n
    ensures forall j: nat :: Pow2(j) > n ==> PowerAbove(n) <= Pow2(j)
  {
    if n == 0 {
      forall j: nat ensures 1 <= Pow2(j) {
        Pow2Monotone(0, j);
      }
    } else {
      PowerAboveIsLeast(n / 2);
      forall j: nat | Pow2(j) > n ensures PowerAbove(n) <= Pow2(j) {
        if j > 0 {
          assert Pow2(j - 1) > n / 2;
        }
      }
    }
  }

  /** A table grown for n has more than n slots, for every n the platform accepts. */
  lemma CapacityExceeds(n: nat)
    requires n <= FD_SETSIZE
    ensures n < Capacity(n) <= FD_SETSIZE + 1
  {
    PowerAboveIsLeast(n);
  }

  /** The table size selector_register indexes into when asked for fd. */
  function SizeForRegister(size: nat, fd: nat): nat {
    if fd > size then Capacity(fd) else size
  }

  /** selector_register compares with > where the table has indexes 0..size-1:
      the slot it then touches exists exactly when fd is not the table size. */
  lemma RegisterInBounds(size: nat, fd: nat)
    requires ValidFd(fd)
    ensures fd < SizeForRegister(size, fd) <==> fd != size
  {
    CapacityExceeds(fd);
  }

  /** A table created for 4 elements has 9 slots, and descriptor 9 misses it;
      the one the server creates, for 1024, is met by every descriptor. */
  lemma RegisterBoundsExamples()
    ensures Capacity(4) == 9 && !(9 < SizeForRegister(Capacity(4), 9))
    ensures forall fd: nat | ValidFd(fd) :: fd < SizeForRegister(Capacity(1024), fd)
  {
    assert PowerAbove(4) == 8;
    CapacityExceeds(1024);
    PowerAboveIsLeast(1024);
    forall fd: nat | ValidFd(fd) ensures fd < SizeForRegister(Capacity(1024), fd) {
      RegisterInBounds(Capacity(1024), fd);
    }
  }

  method NextCapacity(n: nat) returns (size: nat)
    ensures size == Capacity(n)
  {
    var bits: nat, tmp: nat := 0, n;
    while tmp != 0
      invariant Bits(n) == bits + Bits(tmp)
      decreases tmp
    {
      tmp := tmp / 2;
      bits := bits + 1;
    }
    tmp := Pow2(bits);
    if tmp > FD_SETSIZE {
      tmp := FD_SETSIZE;
    }
    size := tmp + 1;
  }

  // ----- dispatch

  datatype Op = Read | Write

  predicate Wants(table: map<int, Item>, fd: int, op: Op) {
    fd in table && (if op.Read? then table[fd].interest.read else table[fd].interest.write)
  }

  /** What a handler can do to the table. */
  datatype TableOp =
    | DoRegister(fd: int, interest: Interest, owner: nat)
    | DoUnregister(fd: int)
    | DoSetInterest(fd: int, interest: Interest)

  function Apply(table: map<int, Item>, op: TableOp): map<int, Item> {
    match op
    case DoRegister(fd, interest, owner) =>
      if !ValidFd(fd) || fd in table then table else table[fd := Item(fd, interest, owner)]
    case DoUnregister(fd) => table - {fd}
    case DoSetInterest(fd, interest) =>
      if fd in table then table[fd := table[fd].(interest := interest)] else table
  }

  function ApplyAll(table: map<int, Item>, ops: seq<TableOp>): map<int, Item> {
    if ops == [] then table else Apply(ApplyAll(table, ops[..|ops| - 1]), ops[|ops| - 1])
  }

  lemma ApplyOne(table: map<int, Item>, ops: seq<TableOp>, k: nat)
    requires k < |ops|
    ensures ApplyAll(table, ops[..k + 1]) == Apply(ApplyAll(table, ops[..k]), ops[k])
  {
    assert ops[..k + 1][..k] == ops[..k];
  }

  lemma {:induction false} ApplyConcat(table: map<int, Item>, a: seq<TableOp>, b: seq<TableOp>)
    ensures ApplyAll(table, a + b) == ApplyAll(ApplyAll(table, a), b)
    decreases |b|
  {
    if b == [] {
      assert a + b == a;
    } else {
      ApplyConcat(table, a, b[..|b| - 1]);
      assert (a + b)[..|a + b| - 1] == a + b[..|b| - 1];
    }
  }

  /** What the read and the write handler of each descriptor do in one iteration. */
  type Script = (int, Op) -> seq<TableOp>

  /** A handler call, with the attachment it is given. */
  datatype Call = Call(fd: int, op: Op, owner: nat)

  /** The table, and the calls made so far. */
  datatype Swept = Swept(table: map<int, Item>, calls: seq<Call>)

  predicate ReadDue(table: map<int, Item>, fd: int, slaveR: set<int>) {
    fd in slaveR && Wants(table, fd, Read)
  }

  /** The table once the read of fd is dealt with. */
  function AfterRead(table: map<int, Item>, fd: int, slaveR: set<int>, script: Script): map<int, Item> {
    if ReadDue(table, fd, slaveR) then ApplyAll(table, script(fd, Read)) else table
  }

  /** A slot that is free when the iteration gets to it has no write either, even if
      its descriptor is ready. */
  predicate WriteDue(table: map<int, Item>, fd: int, slaveR: set<int>, slaveW: set<int>, script: Script) {
    fd in table && fd in slaveW && Wants(AfterRead(table, fd, slaveR, script), fd, Write)
  }

  function CallsFor(table: map<int, Item>, fd: int, slaveR: set<int>, slaveW: set<int>, script: Script): seq<Call> {
    (if ReadDue(table, fd, slaveR) then [Call(fd, Read, table[fd].owner)] else [])
    + (if WriteDue(table, fd, slaveR, slaveW, script) then [Call(fd, Write, table[fd].owner)] else [])
  }

  /** The iteration at one descriptor. */
  function Visit(w: Swept, fd: int, slaveR: set<int>, slaveW: set<int>, script: Script): Swept {
    var read := AfterRead(w.table, fd, slaveR, script);
    Swept(if WriteDue(w.table, fd, slaveR, slaveW, script) then ApplyAll(read, script(fd, Write)) else read,
          w.calls + CallsFor(w.table, fd, slaveR, slaveW, script))
  }

  /** The iteration over the descriptors below n. */
  function Iterated(table: map<int, Item>, slaveR: set<int>, slaveW: set<int>, script: Script, n: nat): Swept {
    if n == 0 then Swept(table, [])
    else Visit(Iterated(table, slaveR, slaveW, script, n - 1), n - 1, slaveR, slaveW, script)
  }

  function Key(c: Call): int {
    2 * c.fd + if c.op.Read? then 0 else 1
  }

  /** Keys increase, and stay below bound. */
  ghost predicate InOrder(calls: seq<Call>, bound: int)
    decreases |calls|
  {
    calls == [] ||
    var c := calls[|calls| - 1];
    0 <= Key(c) < bound && InOrder(calls[..|calls| - 1], Key(c))
  }

  lemma {:induction false} InOrderMeans(calls: seq<Call>, bound: int)
    requires InOrder(calls, bound)
    ensures forall i :: 0 <= i < |calls| ==> 0 <= Key(calls[i]) < bound
    ensures forall i, j :: 0 <= i < j < |calls| ==> Key(calls[i]) < Key(calls[j])
    decreases |calls|
  {
    if calls != [] {
      InOrderMeans(calls[..|calls| - 1], Key(calls[|calls| - 1]));
    }
  }

  lemma InOrderOne(calls: seq<Call>, c: Call, low: int, high: int)
    requires InOrder(calls, low) && 0 <= low <= Key(c) < high
    ensures InOrder(calls + [c], high)
  {
    assert (calls + [c])[..|calls|] == calls;
  }

  /** Was op of fd dispatched? */
  ghost predicate Dispatched(calls: seq<Call>, fd: int, op: Op) {
    exists i :: 0 <= i < |calls| && calls[i].fd == fd && calls[i].op == op
  }

  /** The calls for fd are those due, each with the attachment found in table. */
  ghost predicate Exactly(calls: seq<Call>, table: map<int, Item>, fd: int, read: bool, write: bool) {
    && (forall i :: 0 <= i < |calls| && calls[i].fd == fd ==> fd in table && calls[i].owner == table[fd].owner)
    && (Dispatched(calls, fd, Read) <==> read)
    && (Dispatched(calls, fd, Write) <==> write)
  }

  lemma DispatchedConcat(a: seq<Call>, b: seq<Call>, fd: int, op: Op)
    ensures Dispatched(a + b, fd, op) <==> Dispatched(a, fd, op) || Dispatched(b, fd, op)
  {
    var c := a + b;
    if Dispatched(a, fd, op) {
      var i :| 0 <= i < |a| && a[i].fd == fd && a[i].op == op;
      assert c[i] == a[i];
    }
    if Dispatched(b, fd, op) {
      var i :| 0 <= i < |b| && b[i].fd == fd && b[i].op == op;
      assert c[|a| + i] == b[i];
    }
  }

  /** Calls for other descriptors do not matter. */
  lemma ExactlyConcat(a: seq<Call>, b: seq<Call>, table: map<int, Item>, fd: int, read: bool, write: bool)
    requires (Exactly(a, table, fd, read, write) && forall i :: 0 <= i < |b| ==> b[i].fd != fd)
          || (Exactly(b, table, fd, read, write) && forall i :: 0 <= i < |a| ==> a[i].fd != fd)
    ensures Exactly(a + b, table, fd, read, write)
  {
    DispatchedConcat(a, b, fd, Read);
    DispatchedConcat(a, b, fd, Write);
  }

  /** The calls of one visit. */
  lemma CallsForOne(t: map<int, Item>, fd: nat, slaveR: set<int>, slaveW: set<int>, script: Script)
    ensures var calls := CallsFor(t, fd, slaveR, slaveW, script);
            && (forall i :: 0 <= i < |calls| ==> calls[i].fd == fd)
            && Exactly(calls, t, fd, ReadDue(t, fd, slaveR), WriteDue(t, fd, slaveR, slaveW, script))
  {
    var calls := CallsFor(t, fd, slaveR, slaveW, script);
    var r := ReadDue(t, fd, slaveR);
    if r {
      assert calls[0] == Call(fd, Read, t[fd].owner);
    }
    if WriteDue(t, fd, slaveR, slaveW, script) {
      assert calls[if r then 1 else 0] == Call(fd, Write, t[fd].owner);
    }
  }

  lemma VisitInOrder(w: Swept, after: Swept, fd: nat, slaveR: set<int>, slaveW: set<int>, script: Script)
    requires InOrder(w.calls, 2 * fd) && after == Visit(w, fd, slaveR, slaveW, script)
    ensures InOrder(after.calls, 2 * fd + 2)
  {
    var calls := w.calls;
    if ReadDue(w.table, fd, slaveR) {
      InOrderOne(calls, Call(fd, Read, w.table[fd].owner), 2 * fd, 2 * fd + 1);
      calls := calls + [Call(fd, Read, w.table[fd].owner)];
    }
    assert InOrder(calls, 2 * fd + 1);
    if WriteDue(w.table, fd, slaveR, slaveW, script) {
      InOrderOne(calls, Call(fd, Write, w.table[fd].owner), 2 * fd + 1, 2 * fd + 2);
      calls := calls + [Call(fd, Write, w.table[fd].owner)];
    }
    assert after.calls == calls;
  }

  /** A later visit leaves what was exact exact. */
  lemma VisitKeepsExact(w: Swept, after: Swept, at: nat, slaveR: set<int>, slaveW: set<int>, script: Script,
                        t: map<int, Item>, fd: int, read: bool, write: bool)
    requires Exactly(w.calls, t, fd, read, write) && fd != at && after == Visit(w, at, slaveR, slaveW, script)
    ensures Exactly(after.calls, t, fd, read, write)
  {
    CallsForOne(w.table, at, slaveR, slaveW, script);
    ExactlyConcat(w.calls, CallsFor(w.table, at, slaveR, slaveW, script), t, fd, read, write);
  }

  lemma VisitIsExact(w: Swept, after: Swept, fd: nat, slaveR: set<int>, slaveW: set<int>, script: Script)
    requires InOrder(w.calls, 2 * fd) && after == Visit(w, fd, slaveR, slaveW, script)
    ensures Exactly(after.calls, w.table, fd,
                    ReadDue(w.table, fd, slaveR), WriteDue(w.table, fd, slaveR, slaveW, script))
  {
    InOrderMeans(w.calls, 2 * fd);
    CallsForOne(w.table, fd, slaveR, slaveW, script);
    ExactlyConcat(w.calls, CallsFor(w.table, fd, slaveR, slaveW, script), w.table, fd,
                  ReadDue(w.table, fd, slaveR), WriteDue(w.table, fd, slaveR, slaveW, script));
  }

  lemma {:induction false} IterationInOrder(table: map<int, Item>, slaveR: set<int>, slaveW: set<int>, script: Script, n: nat)
    ensures InOrder(Iterated(table, slaveR, slaveW, script, n).calls, 2 * n)
  {
    var w := Iterated(table, slaveR, slaveW, script, n);
    if n > 0 {
      var before := Iterated(table, slaveR, slaveW, script, n - 1);
      IterationInOrder(table, slaveR, slaveW, script, n - 1);
      VisitInOrder(before, w, n - 1, slaveR, slaveW, script);
    }
  }

  /** Calls are made in ascending order of descriptors, reads before writes, and hence
      no event is dispatched twice, whatever the handlers do to the table. */
  lemma CallsAscend(table: map<int, Item>, slaveR: set<int>, slaveW: set<int>, script: Script, n: nat)
    ensures var calls := Iterated(table, slaveR, slaveW, script, n).calls;
            && (forall i :: 0 <= i < |calls| ==> 0 <= calls[i].fd < n)
            && (forall i, j :: 0 <= i < j < |calls| ==> Key(calls[i]) < Key(calls[j]))
  {
    IterationInOrder(table, slaveR, slaveW, script, n);
    InOrderMeans(Iterated(table, slaveR, slaveW, script, n).calls, 2 * n);
  }

  /** An event is dispatched exactly when it is ready and its slot wants it when its
      turn comes, with the attachment the slot had when the iteration got to it. */
  lemma {:induction false} CalledExactlyWhenDue(table: map<int, Item>, slaveR: set<int>, slaveW: set<int>, script: Script, n: nat, fd: nat)
    requires fd < n
    ensures var t := Iterated(table, slaveR, slaveW, script, fd).table;
            Exactly(Iterated(table, slaveR, slaveW, script, n).calls, t, fd,
                    ReadDue(t, fd, slaveR), WriteDue(t, fd, slaveR, slaveW, script))
    decreases n
  {
    var w, after := Iterated(table, slaveR, slaveW, script, n - 1), Iterated(table, slaveR, slaveW, script, n);
    if fd < n - 1 {
      var t := Iterated(table, slaveR, slaveW, script, fd).table;
      CalledExactlyWhenDue(table, slaveR, slaveW, script, n - 1, fd);
      VisitKeepsExact(w, after, n - 1, slaveR, slaveW, script, t, fd, ReadDue(t, fd, slaveR), WriteDue(t, fd, slaveR, slaveW, script));
    } else {
      IterationInOrder(table, slaveR, slaveW, script, n - 1);
      VisitIsExact(w, after, fd, slaveR, slaveW, script);
    }
  }

  /** A handler is given an attachment that is no longer the one of its slot exactly for
      a ready write whose read was dispatched too, when the read handler leaves the
      descriptor registered for writing under another owner. */
  lemma StaleOwner(table: map<int, Item>, slaveR: set<int>, slaveW: set<int>, script: Script, n: nat, fd: nat)
    requires fd < n
    ensures var calls := Iterated(table, slaveR, slaveW, script, n).calls;
            var t := Iterated(table, slaveR, slaveW, script, fd).table;
            var present, handed := AfterRead(t, fd, slaveR, script), ApplyAll(t, script(fd, Read));
            (exists i :: 0 <= i < |calls| && calls[i].fd == fd && calls[i].op.Write?
                         && fd in present && calls[i].owner != present[fd].owner) <==>
              (fd in slaveR && Wants(t, fd, Read) && fd in slaveW && Wants(handed, fd, Write) && handed[fd].owner != t[fd].owner)
  {
    CalledExactlyWhenDue(table, slaveR, slaveW, script, n, fd);
  }

  class Selector {
    var fds: array<Item>
    var maxFd: nat
    var masterR: set<int>
    var masterW: set<int>
    /** The slots in use. */
    ghost var Table: map<int, Item>

    ghost predicate Slots()
      reads this, fds
    {
      && 0 < fds.Length <= FD_SETSIZE + 1
      && (forall i :: 0 <= i < fds.Length ==>
           if fds[i].fd == FD_UNUSED then fds[i].interest == OP_NOOP else fds[i].fd == i && i in Table)
      && (forall fd :: fd in Table ==> ValidFd(fd) && fd < fds.Length && fds[fd] == Table[fd] && fds[fd].fd == fd)
    }

    /** Every index agrees with the slots. */
    ghost predicate Indexed()
      reads this
    {
      && (forall fd :: fd in masterR <==> Wants(Table, fd, Read))
      && (forall fd :: fd in masterW <==> Wants(Table, fd, Write))
      && (forall fd :: fd in Table ==> fd <= maxFd)
      && (maxFd == 0 || maxFd in Table)
    }

    ghost predicate Valid()
      reads this, fds
    {
      Slots() && Indexed() && maxFd < fds.Length
    }

    /** The table as src/server/main.c creates it: a slot for every descriptor. */
    ghost predicate Ready()
      reads this, fds
    {
      Valid() && fds.Length == FD_SETSIZE + 1
    }

    constructor (initial: nat)
      requires initial <= FD_SETSIZE
      ensures Valid() && Table == map[] && fresh(fds) && fds.Length == Capacity(initial)
      ensures initial == FD_SETSIZE ==> Ready()
    {
      CapacityExceeds(initial);
      var size := NextCapacity(initial);
      fds := new Item[size](_ => Item(FD_UNUSED, OP_NOOP, 0));
      maxFd, masterR, masterW, Table := 0, {}, {}, map[];
    }

    method EnsureCapacity(n: nat) returns (st: Status)
      requires Valid()
      modifies this`fds
      ensures Valid() && Table == old(Table)
      ensures n < old(fds.Length) ==> st == Success
      ensures old(fds.Length) <= n ==> if n > FD_SETSIZE then st == MaxFd else st == Success || st == NoMem
      ensures n < old(fds.Length) || st != Success ==> fds == old(fds)
      ensures old(fds.Length) <= n && st == Success ==>
                && fresh(fds) && n < fds.Length == Capacity(n)
                && (forall i :: 0 <= i < old(fds.Length) ==> fds[i] == old(fds[i]))
                && (forall i :: old(fds.Length) <= i < fds.Length ==> fds[i] == Item(FD_UNUSED, OP_NOOP, 0))
    {
      if n < fds.Length {
        st := Success;
      } else if n > FD_SETSIZE {
        st := MaxFd;
      } else {
        CapacityExceeds(n);
        var size := NextCapacity(n);
        var granted: bool := *;
        if !granted {
          return NoMem;
        }
        var was := fds;
        fds := new Item[size](i requires 0 <= i < size reads was =>
                                if i < was.Length then was[i] else Item(FD_UNUSED, OP_NOOP, 0));
        st := Success;
      }
    }

    /** items_update_fdset_for_fd: clear both bits, then set those wanted. */
    method UpdateFdSets(item: Item)
      modifies this`masterR, this`masterW
      ensures forall fd :: fd in masterR <==> if fd == item.fd then item.interest.read else fd in old(masterR)
      ensures forall fd :: fd in masterW <==> if fd == item.fd then item.interest.write else fd in old(masterW)
    {
      masterR, masterW := masterR - {item.fd}, masterW - {item.fd};
      if item.interest.read {
        masterR := masterR + {item.fd};
      }
      if item.interest.write {
        masterW := masterW + {item.fd};
      }
    }

    method ItemsMaxFd() returns (max: nat)
      requires Slots() && maxFd < fds.Length && (forall fd :: fd in Table ==> fd <= maxFd)
      ensures max < fds.Length
      ensures (forall fd :: fd in Table ==> fd <= max) && (max == 0 || max in Table)
    {
      max := 0;
      var i := 0;
      while i <= maxFd
        invariant 0 <= i <= maxFd + 1
        invariant max < fds.Length && (max == 0 || max in Table)
        invariant forall fd :: fd in Table && fd < i ==> fd <= max
      {
        if fds[i].fd != FD_UNUSED && fds[i].fd > max {
          max := fds[i].fd;
        }
        i := i + 1;
      }
    }

    /** selector_register. The precondition is the exact one of RegisterInBounds. */
    method Register(fd: int, interest: Interest, owner: nat) returns (st: Status)
      requires Valid() && (ValidFd(fd) ==> fd != fds.Length)
      modifies this, fds
      ensures Valid()
      ensures st == NoMem ==> fd > old(fds.Length)
      ensures st == NoMem || st == if !ValidFd(fd) then IArgs else if fd in old(Table) then FdInUse else Success
      ensures Table == if st == Success then old(Table)[fd := Item(fd, interest, owner)] else old(Table)
      ensures fd <= old(fds.Length) || !ValidFd(fd) ==> fds == old(fds)
      ensures fds == old(fds) || fresh(fds)
    {
      if !ValidFd(fd) {
        return IArgs;
      }
      if fd > fds.Length {
        st := EnsureCapacity(fd);
        if st != Success {
          return st;
        }
      }
      if fds[fd].fd != FD_UNUSED {
        return FdInUse;
      }
      var item := Item(fd, interest, owner);
      fds[fd] := item;
      Table := Table[fd := item];
      if fd > maxFd {
        maxFd := fd;
      }
      UpdateFdSets(item);
      return Success;
    }

    /** selector_unregister_fd, without the close callback, which the owner runs. */
    method Unregister(fd: int) returns (st: Status)
      requires Valid() && (ValidFd(fd) ==> fd < fds.Length)
      modifies this, fds
      ensures Valid() && fds == old(fds)
      ensures st == if fd in old(Table) then Success else IArgs
      ensures Table == old(Table) - {fd}
    {
      if !ValidFd(fd) || fds[fd].fd == FD_UNUSED {
        return IArgs;
      }
      UpdateFdSets(fds[fd].(interest := OP_NOOP));
      fds[fd] := Item(FD_UNUSED, OP_NOOP, 0);
      Table := Table - {fd};
      maxFd := ItemsMaxFd();
      return Success;
    }

    method SetInterest(fd: int, interest: Interest) returns (st: Status)
      requires Valid() && (ValidFd(fd) ==> fd < fds.Length)
      modifies this, fds
      ensures Valid() && fds == old(fds)
      ensures st == if fd in old(Table) then Success else IArgs
      ensures Table == if fd in old(Table) then old(Table)[fd := old(Table)[fd].(interest := interest)] else old(Table)
    {
      if !ValidFd(fd) || fds[fd].fd == FD_UNUSED {
        return IArgs;
      }
      fds[fd] := fds[fd].(interest := interest);
      Table := Table[fd := fds[fd]];
      UpdateFdSets(fds[fd]);
      return Success;
    }

    method Perform(op: TableOp)
      requires Ready()
      modifies this, fds
      ensures Ready() && fds == old(fds) && Table == Apply(old(Table), op)
    {
      match op {
        case DoRegister(fd, interest, owner) => var st := Register(fd, interest, owner);
        case DoUnregister(fd) => var st := Unregister(fd);
        case DoSetInterest(fd, interest) => var st := SetInterest(fd, interest);
      }
    }

    /** A handler, as far as the table is concerned. */
    method Handle(ops: seq<TableOp>)
      requires Ready()
      modifies this, fds
      ensures Ready() && fds == old(fds) && Table == ApplyAll(old(Table), ops)
    {
      var k := 0;
      while k < |ops|
        invariant 0 <= k <= |ops|
        invariant Ready() && fds == old(fds) && Table == ApplyAll(old(Table), ops[..k])
      {
        ApplyOne(old(Table), ops, k);
        Perform(ops[k]);
        k := k + 1;
      }
      assert ops[..k] == ops;
    }

    /** The body of the loop of handle_iteration. The table has a slot for every
        descriptor, so no handler makes it grow and the slot stays where it is. */
    method VisitSlot(i: nat, slaveR: set<int>, slaveW: set<int>, script: Script) returns (calls: seq<Call>)
      requires Ready() && i < fds.Length
      modifies this, fds
      ensures Ready() && fds == old(fds)
      ensures calls == CallsFor(old(Table), i, slaveR, slaveW, script)
      ensures Table == Visit(Swept(old(Table), []), i, slaveR, slaveW, script).table
    {
      calls := [];
      if fds[i].fd != FD_UNUSED {
        var key := fds[i];
        if key.fd in slaveR && fds[i].interest.read {
          calls := [Call(key.fd, Read, key.owner)];
          Handle(script(key.fd, Read));
        }
        if i in slaveW && fds[i].interest.write {
          calls := calls + [Call(key.fd, Write, key.owner)];
          Handle(script(key.fd, Write));
        }
      }
    }

    /** handle_iteration, for any behaviour of the handlers; calls are the calls it made. */
    method HandleIteration(slaveR: set<int>, slaveW: set<int>, script: Script) returns (calls: seq<Call>)
      requires Ready()
      modifies this, fds
      ensures Ready()
      ensures Swept(Table, calls) == Iterated(old(Table), slaveR, slaveW, script, old(maxFd) + 1)
    {
      var n := maxFd;
      calls := [];
      var i := 0;
      while i <= n
        invariant 0 <= i <= n + 1 && n < fds.Length
        invariant Ready() && fds == old(fds)
        invariant Swept(Table, calls) == Iterated(old(Table), slaveR, slaveW, script, i)
      {
        var more := VisitSlot(i, slaveR, slaveW, script);
        calls := calls + more;
        i := i + 1;
      }
    }
  }

  /** The read handler of StaleTurn: unregister, and register again for another owner. */
  function HandOver(at: int, owner: nat): Script {
    (fd: int, op: Op) => if fd == at && op.Read? then [DoUnregister(fd), DoRegister(fd, OP_WRITE, owner)] else []
  }

  /** Below and above the one descriptor that is ready nothing happens. */
  lemma {:induction false} OnlyAt(table: map<int, Item>, at: int, script: Script, n: nat)
    ensures Iterated(table, {at}, {at}, script, n) ==
            if at < 0 || n <= at then Swept(table, []) else Visit(Swept(table, []), at, {at}, {at}, script)
  {
    if n > 0 {
      OnlyAt(table, at, script, n - 1);
    }
  }

  /** An iteration that does it: descriptor fd is ready for both, its read handler hands
      the slot to another owner, and the write goes to the old one. */
  method StaleTurn(s: Selector, fd: int, owner: nat) returns (calls: seq<Call>)
    requires s.Ready() && fd in s.Table && s.Table[fd].interest.read && s.Table[fd].owner != owner
    modifies s, s.fds
    ensures s.Ready() && s.Table == old(s.Table)[fd := Item(fd, OP_WRITE, owner)]
    ensures calls == [Call(fd, Read, old(s.Table[fd].owner)), Call(fd, Write, old(s.Table[fd].owner))]
  {
    ghost var t := s.Table;
    OnlyAt(t, fd, HandOver(fd, owner), s.maxFd + 1);
    var script := HandOver(fd, owner);
    var ops := script(fd, Read);
    ApplyOne(t, ops, 0);
    ApplyOne(t, ops, 1);
    assert ops[..2] == ops;
    assert ApplyAll(t, ops) == t[fd := Item(fd, OP_WRITE, owner)];
    calls := s.HandleIteration({fd}, {fd}, script);
  }
}
