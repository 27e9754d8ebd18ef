/** The cyclic next-fit allocator of network ids (net_id_manager.cpp). */
module NetIds {
  const MIN_NET_ID := 100
  const MAX_NET_ID := 65535 - 0x0400
  const ROUNDS := MAX_NET_ID - MIN_NET_ID + 1

  /** One advance of lastNetId_. The initial -1 lies below MIN_NET_ID, so the first pass starts at 0. */
  function Next(id: int): int {
    if id < MAX_NET_ID then id + 1 else MIN_NET_ID
  }

  /** The id reached from `last` after k advances, while k is at most one round. */
  function Advanced(last: int, k: nat): int
    requires last <= MAX_NET_ID && k <= ROUNDS
  {
    if last + k <= MAX_NET_ID then last + k else last + k - ROUNDS
  }

  lemma {:induction false} AdvancedIsIteration(last: int, k: nat)
    requires -1 <= last <= MAX_NET_ID && k < ROUNDS
    ensures Advanced(last, 0) == last
    ensures Advanced(last, k + 1) == Next(Advanced(last, k))
  {
  }

  /** k is the first number of advances that leads to an unused id. */
  predicate FirstFit(last: int, used: set<int>, k: nat)
    requires last <= MAX_NET_ID
  {
    1 <= k <= ROUNDS && Advanced(last, k) !in used
    && forall j: nat :: 1 <= j < k ==> Advanced(last, j) in used
  }

  predicate AnyFree(used: set<int>) {
    exists id :: MIN_NET_ID <= id <= MAX_NET_ID && id !in used
  }

  /** What holds in every state reachable by reserving and releasing. */
  predicate Reachable(last: int, used: set<int>) {
    && -1 <= last <= MAX_NET_ID
    && (forall id :: id in used ==> 0 <= id <= MAX_NET_ID)
    && (last < MIN_NET_ID ==> forall id :: id in used ==> id <= last)
  }

  /** How many advances lead from `last` to id. */
  function Distance(last: int, id: int): int {
    if last < id then id - last else id - last + ROUNDS
  }

  /** In a reachable state the search of at most one round succeeds iff some id of the range is free. */
  lemma SearchSucceeds(last: int, used: set<int>)
    requires Reachable(last, used)
    ensures (exists k: nat :: 1 <= k <= ROUNDS && Advanced(last, k) !in used) <==> AnyFree(used)
  {
    if last < MIN_NET_ID {
      assert Advanced(last, 1) !in used && MAX_NET_ID !in used;
    } else {
      if AnyFree(used) {
        var id :| MIN_NET_ID <= id <= MAX_NET_ID && id !in used;
        assert Advanced(last, Distance(last, id)) == id;
      }
      if k: nat :| 1 <= k <= ROUNDS && Advanced(last, k) !in used {
        assert MIN_NET_ID <= Advanced(last, k) <= MAX_NET_ID;
      }
    }
  }

  /** Next fit in cyclic order: the id found is the free one at the least cyclic distance after `last`. */
  lemma FirstFitIsNearest(last: int, used: set<int>, k: nat, id: int)
    requires MIN_NET_ID <= last <= MAX_NET_ID && FirstFit(last, used, k)
    requires MIN_NET_ID <= id <= MAX_NET_ID && id !in used
    ensures Distance(last, Advanced(last, k)) == k <= Distance(last, id)
  {
    var d := Distance(last, id);
    assert Advanced(last, d) == id;
  }

  /** What the n-th reservation (from 0) returns when nothing is ever released. */
  function IdOf(n: nat): int {
    if n <= MAX_NET_ID then n else MAX_NET_ID
  }

  /** The state after n reservations and no release. */
  ghost predicate HandedOut(last: int, used: set<int>, n: nat) {
    last == (if n == 0 then -1 else IdOf(n - 1)) && forall id :: id in used <==> 0 <= id <= last
  }

  lemma NextHandedOut(last: int, used: set<int>, n: nat)
    requires HandedOut(last, used, n)
    ensures AnyFree(used) <==> n <= MAX_NET_ID
    ensures n <= MAX_NET_ID ==> Advanced(last, 1) == n && n !in used
  {
    assert n <= MAX_NET_ID ==> MAX_NET_ID !in used;
  }
}

module NetIdManager {
  import opened NetIds

  class NetIdManager {
    var lastNetId: int
    var netIdInUse: map<int, bool>

    ghost predicate Valid()
      reads this
    {
      Reachable(lastNetId, netIdInUse.Keys)
    }

    constructor ()
      ensures Valid() && lastNetId == -1 && netIdInUse == map[]
    {
      lastNetId, netIdInUse := -1, map[];
    }

    /**
     With a free id in the range, the first free one in advance order is returned and marked; with
     none, nothing changes and the id returned is the previous one again, which is in use.
     */
    method ReserveNetId() returns (id: int)
      requires Valid()
      modifies this
      ensures Valid() && id == lastNetId
      ensures AnyFree(old(netIdInUse).Keys) ==>
        && id !in old(netIdInUse)
        && netIdInUse == old(netIdInUse)[id := true]
        && exists k :: FirstFit(old(lastNetId), old(netIdInUse).Keys, k) && id == Advanced(old(lastNetId), k)
      ensures old(lastNetId) == 64511 && 100 !in old(netIdInUse) ==> id == 100
      ensures !AnyFree(old(netIdInUse).Keys) ==> lastNetId == old(lastNetId) && netIdInUse == old(netIdInUse)
    {
      ghost var last, used := lastNetId, netIdInUse.Keys;
      SearchSucceeds(last, used);
      assert 100 !in used ==> AnyFree(used);
      assert last == 64511 ==> Advanced(last, 1) == 100;
      var i := MIN_NET_ID;
      while i <= MAX_NET_ID
        invariant MIN_NET_ID <= i <= MAX_NET_ID + 1
        invariant lastNetId == Advanced(last, i - MIN_NET_ID)
        invariant netIdInUse == old(netIdInUse)
        invariant forall j: nat :: 1 <= j <= i - MIN_NET_ID ==> Advanced(last, j) in used
      {
        AdvancedIsIteration(last, i - MIN_NET_ID);
        if lastNetId < MAX_NET_ID {
          lastNetId := lastNetId + 1;
        } else {
          lastNetId := MIN_NET_ID;
        }
        if lastNetId !in netIdInUse {
          assert FirstFit(last, used, i + 1 - MIN_NET_ID);
          netIdInUse := netIdInUse[lastNetId := true];
          break;
        }
        i := i + 1;
      }
      return lastNetId;
    }

    method ReleaseNetId(netId: int)
      requires Valid()
      modifies this`netIdInUse
      ensures Valid() && netIdInUse == old(netIdInUse) - {netId}
    {
      if netId in netIdInUse {
        netIdInUse := netIdInUse - {netId};
      }
    }
  }

  /**
   Without releases the i-th call hands out i for i up to MAX_NET_ID, and MAX_NET_ID again for ever
   after: the ids are distinct exactly for the first MAX_NET_ID + 1 calls.
   */
  method FirstPass(n: nat) returns (ids: seq<int>)
    ensures |ids| == n && forall i :: 0 <= i < n ==> ids[i] == IdOf(i)
    ensures (forall i, j :: 0 <= i < j < n ==> ids[i] != ids[j]) <==> n <= 64512
  {
    var manager := new NetIdManager();
    ids := [];
    while |ids| < n
      invariant |ids| <= n
      invariant forall i :: 0 <= i < |ids| ==> ids[i] == IdOf(i)
      invariant manager.Valid() && fresh(manager)
      invariant HandedOut(manager.lastNetId, manager.netIdInUse.Keys, |ids|)
    {
      NextHandedOut(manager.lastNetId, manager.netIdInUse.Keys, |ids|);
      var id := manager.ReserveNetId();
      ids := ids + [id];
    }
    if n > MAX_NET_ID + 1 {
      assert ids[MAX_NET_ID] == ids[MAX_NET_ID + 1];
    }
  }
}
