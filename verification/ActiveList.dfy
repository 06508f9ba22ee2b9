/** The session records of src/shared/socks5.c: the intrusive doubly linked list of
    live sessions, the pool of spare records, and the timeout sweep over the list. */
module ActiveList {
  const MAX_POOL := 50

  class Record {
    var activePrev: Record?
    var activeNext: Record?
    var poolNext: Record?

    constructor ()
      ensures activePrev == activeNext == poolNext == null
    {
      activePrev, activeNext, poolNext := null, null, null;
    }
  }

  class Registry {
    var head: Record?
    var activeSessions: nat
    var pool: Record?
    var poolSize: nat
    var accepted: nat
    var closed: nat
    /** The records on the list and in the pool, in order. */
    ghost var Live: seq<Record>
    ghost var Spare: seq<Record>

    /** head, active_prev and active_next spell out Live, each record once. */
    ghost predicate Linked()
      reads this, Live
    {
      && (Live == [] ==> head == null)
      && (Live != [] ==> head == Live[0] && Live[0].activePrev == null && Live[|Live| - 1].activeNext == null)
      && (forall i {:trigger Live[i].activePrev} :: 1 <= i < |Live| ==> Live[i].activePrev == Live[i - 1])
      && (forall i {:trigger Live[i].activeNext} :: 0 <= i < |Live| - 1 ==> Live[i].activeNext == Live[i + 1])
      && (forall i, j :: 0 <= i < j < |Live| ==> Live[i] != Live[j])
    }

    /** pool and next spell out Spare. */
    ghost predicate Pooled()
      reads this, Spare
    {
      && (Spare == [] ==> pool == null)
      && (Spare != [] ==> pool == Spare[0] && Spare[|Spare| - 1].poolNext == null)
      && (forall i {:trigger Spare[i].poolNext} :: 0 <= i < |Spare| - 1 ==> Spare[i].poolNext == Spare[i + 1])
      && (forall i, j :: 0 <= i < j < |Spare| ==> Spare[i] != Spare[j])
      && poolSize == |Spare| <= MAX_POOL
    }

    ghost predicate Valid()
      reads this, Live, Spare
    {
      && Linked() && Pooled() && (forall i, j :: 0 <= i < |Live| && 0 <= j < |Spare| ==> Live[i] != Spare[j])
      && activeSessions == |Live| == accepted - closed
    }

    constructor ()
      ensures Valid() && Live == [] && Spare == []
    {
      head, activeSessions, pool, poolSize, accepted, closed := null, 0, null, 0, 0, 0;
      Live, Spare := [], [];
    }

    /** socks5_new: the first spare record, or a new one; cleared either way. */
    method New() returns (r: Record)
      requires Valid()
      modifies this`pool, this`poolSize, this`Spare, Spare
      ensures Valid() && r !in Live && r !in Spare && (fresh(r) || r in old(Spare))
      ensures Spare == if old(Spare) == [] then [] else old(Spare)[1..]
      ensures old(Spare) != [] ==> r == old(Spare)[0]
      ensures r.activePrev == r.activeNext == r.poolNext == null
    {
      if pool != null {
        r := pool;
        pool, poolSize := pool.poolNext, poolSize - 1;
        assert forall i :: 0 <= i < |Spare| - 1 ==> Spare[1..][i] == Spare[i + 1] && Spare[i + 1] != r;
        Spare := Spare[1..];
        r.activePrev, r.activeNext, r.poolNext := null, null, null;
      } else {
        r := new Record();
      }
    }

    /** active_list_add, and the counters of socksv5_passive_accept. */
    method Add(r: Record)
      requires Valid() && r !in Live && r !in Spare
      modifies this`head, this`activeSessions, this`accepted, this`Live, r, Live
      ensures Valid() && Live == [r] + old(Live) && accepted == old(accepted) + 1
      ensures forall x :: x in old(Live) ==> x.poolNext == old(x.poolNext)
    {
      r.activePrev := null;
      r.activeNext := head;
      if head != null {
        head.activePrev := r;
      }
      head := r;
      activeSessions, accepted := activeSessions + 1, accepted + 1;
      Live := [r] + Live;
    }

    /** The pointers of an unlinking, in place of index k. */
    method Bypass(r: Record, ghost k: nat)
      requires Linked() && k < |Live| && Live[k] == r
      modifies this`head, this`Live, Live
      ensures Linked() && Live == old(Live)[..k] + old(Live)[k + 1..]
      ensures r !in Live && r.activePrev == r.activeNext == null
      ensures forall x :: x in old(Live) ==> x.poolNext == old(x.poolNext)
    {
      if r.activePrev != null {
        r.activePrev.activeNext := r.activeNext;
      } else {
        head := r.activeNext;
      }
      if r.activeNext != null {
        r.activeNext.activePrev := r.activePrev;
      }
      r.activePrev, r.activeNext := null, null;
      Live := Live[..k] + Live[k + 1..];
    }

    /** The unlinking at the start of socksv5_done, in place of index k. */
    method Unlink(r: Record, ghost k: nat)
      requires Valid() && k < |Live| && Live[k] == r
      modifies this`head, this`activeSessions, this`closed, this`Live, Live
      ensures Valid() && Live == old(Live)[..k] + old(Live)[k + 1..] && closed == old(closed) + 1
      ensures r !in Live && r.activePrev == r.activeNext == null
    {
      Bypass(r, k);
      activeSessions, closed := activeSessions - 1, closed + 1;
    }

    /** The last reference goes: back to the pool, or freed when the pool is full. */
    method Release(r: Record)
      requires Valid() && r !in Live && r !in Spare
      modifies this`pool, this`poolSize, this`Spare, r
      ensures Valid() && Spare == Returned(old(Spare), r)
    {
      if poolSize < MAX_POOL {
        r.poolNext := pool;
        pool, poolSize := r, poolSize + 1;
        Spare := [r] + Spare;
      }
    }

    /** socksv5_done for a session on the list. */
    method Close(r: Record, ghost k: nat)
      requires Valid() && k < |Live| && Live[k] == r
      modifies this, Live
      ensures Valid() && Live == old(Live)[..k] + old(Live)[k + 1..]
      ensures Spare == Returned(old(Spare), r)
      ensures closed == old(closed) + 1 && accepted == old(accepted)
    {
      Unlink(r, k);
      Release(r);
    }

    /** One turn of the sweep: the record after this one is read before the session can
        be closed, and closing this one leaves it on the list. */
    method Visit(s: Record, ghost kept: seq<Record>, ghost rest: seq<Record>, overdue: bool, ghost all: seq<Record>)
      returns (next: Record?)
      requires Valid() && Live == kept + [s] + rest
      requires forall r :: r in Live ==> r in all
      modifies this, all
      ensures forall r :: r in Live ==> r in all
      ensures Valid() && Live == (if overdue then kept else kept + [s]) + rest
      ensures next == if rest == [] then null else rest[0]
      ensures accepted == old(accepted) && closed == old(closed) + if overdue then 1 else 0
      ensures Spare == if overdue then Returned(old(Spare), s) else old(Spare)
    {
      ghost var k := |kept|;
      assert Live[k] == s && (rest != [] ==> Live[k + 1] == rest[0]);
      next := s.activeNext;
      if overdue {
        assert Live[..k] == kept && Live[k + 1..] == rest;
        assert forall i :: 0 <= i < |Live| ==> Live[i] in all;
        Close(s, k);
      }
    }

    /** The sweep of all, found to be late in part, has visited some of its records and is
        about to look at s, the first of the rest. */
    ghost predicate Sweeping(all: seq<Record>, spare: seq<Record>, late: set<Record>, visited: seq<Record>, rest: seq<Record>, s: Record?)
      reads this, Live, Spare
    {
      && Valid() && all == visited + rest
      && Live == Survivors(visited, late) + rest && Spare == Pooling(spare, visited, late)
      && s == (if rest == [] then null else rest[0])
      && (forall r :: r in Live ==> r in all)
    }

    method SweepOne(s: Record, late: set<Record>, ghost all: seq<Record>, ghost spare: seq<Record>, ghost visited: seq<Record>, ghost rest: seq<Record>)
      returns (next: Record?)
      requires Sweeping(all, spare, late, visited, [s] + rest, s)
      modifies this, all
      ensures Sweeping(all, spare, late, visited + [s], rest, next)
      ensures accepted == old(accepted)
    {
      ghost var kept := Survivors(visited, late);
      assert Live == kept + [s] + rest && all == visited + [s] + rest;
      SurvivorsOne(visited, late, s);
      PoolingOne(spare, visited, late, s);
      assert kept + [] == kept;
      next := Visit(s, kept, rest, s in late, all);
    }

    /** socksv5_check_timeouts, when the records that have run out of time are those in
        late: every session there was at the start is visited, once and in order, although
        some are closed on the way; exactly the late ones are gone from the list, and
        back in the pool as far as it has room. */
    method Sweep(late: set<Record>) returns (visited: seq<Record>)
      requires Valid()
      modifies this, Live
      ensures Valid() && visited == old(Live)
      ensures Live == Survivors(old(Live), late)
      ensures Spare == Pooling(old(Spare), old(Live), late)
      ensures accepted == old(accepted) && closed - old(closed) == |old(Live)| - |Live|
    {
      ghost var all, rest := Live, Live;
      visited := [];
      var s := head;
      assert [] + rest == rest;
      while s != null
        invariant Sweeping(all, old(Spare), late, visited, rest, s) && accepted == old(accepted)
        decreases |rest|
      {
        var r: Record := s;
        assert rest == [r] + rest[1..];
        s := SweepOne(r, late, all, old(Spare), visited, rest[1..]);
        visited, rest := visited + [r], rest[1..];
      }
      assert Survivors(visited, late) + [] == Survivors(visited, late) && visited + [] == visited;
    }
  }

  /** The records that are not late. */
  ghost function Survivors(all: seq<Record>, late: set<Record>): seq<Record> {
    if all == [] then []
    else
      var n := |all| - 1;
      Survivors(all[..n], late) + if all[n] in late then [] else [all[n]]
  }

  lemma SurvivorsOne(all: seq<Record>, late: set<Record>, r: Record)
    ensures Survivors(all + [r], late) == Survivors(all, late) + if r in late then [] else [r]
  {
    assert (all + [r])[..|all|] == all;
  }

  /** Exactly the records that are not late survive, in their order. */
  lemma {:induction false} SurvivorsAre(all: seq<Record>, late: set<Record>)
    ensures forall r :: r in Survivors(all, late) <==> r in all && r !in late
    ensures |Survivors(all, late)| == |all| ==> Survivors(all, late) == all
    ensures |Survivors(all, late)| <= |all|
    decreases |all|
  {
    if all != [] {
      var n := |all| - 1;
      SurvivorsAre(all[..n], late);
      assert all == all[..n] + [all[n]];
    }
  }

  function Returned(spare: seq<Record>, r: Record): seq<Record> {
    if |spare| < MAX_POOL then [r] + spare else spare
  }

  /** The pool once the late ones of all are back. */
  ghost function Pooling(spare: seq<Record>, all: seq<Record>, late: set<Record>): seq<Record> {
    if all == [] then spare
    else
      var n := |all| - 1;
      var before := Pooling(spare, all[..n], late);
      if all[n] in late then Returned(before, all[n]) else before
  }

  lemma PoolingOne(spare: seq<Record>, all: seq<Record>, late: set<Record>, r: Record)
    ensures var before := Pooling(spare, all, late);
            Pooling(spare, all + [r], late) == if r in late then Returned(before, r) else before
  {
    assert (all + [r])[..|all|] == all;
  }
}
