// src/slab.rs: a vector of objects whose free places form a list threaded through themselves.
module Slabs {
  import opened Bits

  const INVALID_INDEX := USIZE_MAX

  datatype Option<+T> = None | Some(value: T)

  datatype Object<+T> = Free(next: nat) | Used(elem: T)

  // The objects in use, by index.
  function Contents<T>(objs: seq<Object<T>>): (m: map<nat, T>)
    ensures forall i: nat :: i in m <==> i < |objs| && objs[i].Used?
    ensures forall i :: i in m ==> m[i] == objs[i].elem
  {
    map i: nat | i < |objs| && objs[i].Used? :: objs[i].elem
  }

  // The k-th link of the free list: a free place that names the one after it.
  ghost predicate Link<T>(objs: seq<Object<T>>, chain: seq<nat>, k: nat)
    requires k < |chain|
  {
    && chain[k] < |objs|
    && objs[chain[k]].Free?
    && objs[chain[k]].next == if k + 1 < |chain| then chain[k + 1] else INVALID_INDEX
  }

  // `chain` lists the indices met by following the free list from `head`: it ends, repeats nothing and
  // meets exactly the free places.
  ghost predicate FreeChain<T>(objs: seq<Object<T>>, head: nat, chain: seq<nat>) {
    && head == (if chain == [] then INVALID_INDEX else chain[0])
    && (forall k: nat {:trigger Link(objs, chain, k)} :: k < |chain| ==> Link(objs, chain, k))
    && (forall i: nat :: i in chain <==> i < |objs| && objs[i].Free?)
    && (forall j, k :: 0 <= j < k < |chain| ==> chain[j] != chain[k])
  }

  // The chain is determined by the objects, so `FreeChain` leaves no freedom.
  lemma {:induction false} FreeChainUnique<T>(objs: seq<Object<T>>, head: nat, c1: seq<nat>, c2: seq<nat>)
    requires |objs| <= INVALID_INDEX
    requires FreeChain(objs, head, c1) && FreeChain(objs, head, c2)
    ensures c1 == c2
  {
    if |c1| <= |c2| { FreeChainPrefix(objs, head, c1, c2, |c1|); } else { FreeChainPrefix(objs, head, c2, c1, |c2|); }
  }

  lemma {:induction false} FreeChainPrefix<T>(objs: seq<Object<T>>, head: nat, c1: seq<nat>, c2: seq<nat>, k: nat)
    requires |objs| <= INVALID_INDEX
    requires FreeChain(objs, head, c1) && FreeChain(objs, head, c2)
    requires k <= |c1| <= |c2|
    ensures c1[..k] == c2[..k]
    ensures k == |c1| ==> |c1| == |c2|
  {
    if k < |c2| { assert Link(objs, c2, k); }
    if k > 0 {
      FreeChainPrefix(objs, head, c1, c2, k - 1);
      if k > 1 {
        assert c1[..k - 1][k - 2] == c2[..k - 1][k - 2];
        assert Link(objs, c1, k - 2) && Link(objs, c2, k - 2);
      }
      assert c1[k - 1] == c2[k - 1];
      assert Link(objs, c1, k - 1) && Link(objs, c2, k - 1);
    }
  }

  // `hfree` is the invalid index exactly when no place is free.
  lemma ChainEmpty<T>(objs: seq<Object<T>>, head: nat, chain: seq<nat>)
    requires |objs| <= INVALID_INDEX && FreeChain(objs, head, chain)
    ensures head == INVALID_INDEX <==> chain == []
    ensures head == INVALID_INDEX <==> forall i :: 0 <= i < |objs| ==> objs[i].Used?
  {
    if chain != [] {
      assert Link(objs, chain, 0);
    }
  }

  // Popping the head, pushing a place just freed, and writing a used place keep the chain.
  lemma ChainPop<T>(objs: seq<Object<T>>, head: nat, chain: seq<nat>, elem: T)
    requires |objs| <= INVALID_INDEX
    requires FreeChain(objs, head, chain) && chain != []
    ensures head == chain[0] && head < |objs| && objs[head].Free?
    ensures FreeChain(objs[head := Used(elem)], objs[head].next, chain[1..])
  {
    assert Link(objs, chain, 0);
    var o := objs[head := Used(elem)];
    forall k: nat | k < |chain| - 1 ensures Link(o, chain[1..], k) { assert Link(objs, chain, k + 1); }
    assert forall i :: i in chain[1..] <==> i in chain && i != head;
  }

  lemma ChainPush<T>(objs: seq<Object<T>>, head: nat, chain: seq<nat>, idx: nat)
    requires |objs| <= INVALID_INDEX
    requires FreeChain(objs, head, chain)
    requires idx < |objs| && objs[idx].Used?
    ensures FreeChain(objs[idx := Free(head)], idx, [idx] + chain)
  {
    var o, c := objs[idx := Free(head)], [idx] + chain;
    assert idx !in chain;
    assert Link(o, c, 0);
    forall k: nat | 0 < k < |c| ensures Link(o, c, k) {
      assert Link(objs, chain, k - 1);
      assert chain[k - 1] in chain;
    }
  }

  lemma ChainWrite<T>(objs: seq<Object<T>>, head: nat, chain: seq<nat>, o: seq<Object<T>>)
    requires FreeChain(objs, head, chain)
    requires |objs| <= |o|
    requires forall i :: 0 <= i < |objs| && objs[i].Free? ==> o[i] == objs[i]
    requires forall i :: 0 <= i < |o| && (i >= |objs| || objs[i].Used?) ==> o[i].Used?
    ensures FreeChain(o, head, chain)
  {
    forall k: nat | k < |chain| ensures Link(o, chain, k) {
      assert Link(objs, chain, k);
    }
  }

  // What writing one place does to the contents.
  lemma ContentsWrite<T>(objs: seq<Object<T>>, idx: nat, elem: T)
    requires idx <= |objs|
    ensures idx == |objs| ==> Contents(objs + [Used(elem)]) == Contents(objs)[idx := elem]
    ensures idx < |objs| ==> Contents(objs[idx := Used(elem)]) == Contents(objs)[idx := elem]
  {
  }

  lemma ContentsFree<T>(objs: seq<Object<T>>, idx: nat, next: nat)
    requires idx < |objs| && objs[idx].Used?
    ensures idx in Contents(objs) && Contents(objs[idx := Free(next)]) == Contents(objs) - {idx}
    ensures |Contents(objs)| == |Contents(objs[idx := Free(next)])| + 1
  {
    assert Contents(objs) == Contents(objs[idx := Free(next)])[idx := objs[idx].elem];
  }

  class Slab<T> {
    var objs: seq<Object<T>>
    var len: nat
    var hfree: nat

    ghost var chain: seq<nat>  // the free list, from `hfree`
    ghost var peak: nat        // the largest `len` since the last effective clear

    ghost predicate Valid()
      reads this
    {
      && |objs| <= INVALID_INDEX
      && FreeChain(objs, hfree, chain)
      && len == |Contents(objs)|
      && |objs| == len + |chain| == peak
    }

    ghost function Map(): (r: map<nat, T>)
      reads this
    {
      Contents(objs)
    }

    // The index the next insertion will use.
    ghost function NextIndex(): (r: nat)
      reads this
    {
      if chain == [] then |objs| else chain[0]
    }

    constructor ()
      ensures Valid() && Map() == map[] && chain == [] && objs == []
    {
      objs, len, hfree := [], 0, INVALID_INDEX;
      chain, peak := [], 0;
    }

    method Clear()
      requires Valid()
      modifies this
      ensures Valid() && Map() == map[] && len == 0
      ensures peak == if old(len) > 0 then 0 else old(peak)
      ensures old(len) == 0 ==> chain == old(chain) && objs == old(objs)
    {
      if len > 0 {
        objs, len, hfree := [], 0, INVALID_INDEX;
        chain, peak := [], 0;
      }
    }

    method Insert(elem: T) returns (idx: nat)
      requires Valid()
      requires hfree == INVALID_INDEX ==> |objs| < INVALID_INDEX  // the vector can still grow
      modifies this
      ensures Valid()
      ensures idx == old(NextIndex()) && idx !in old(Map()) && idx < |objs|
      ensures Map() == old(Map())[idx := elem]
      ensures len == old(len) + 1 && peak == if old(peak) < len then len else old(peak)
      ensures chain == if old(chain) == [] then [] else old(chain)[1..]
      ensures objs[idx] == Used(elem) && |objs| == peak
      ensures forall i :: 0 <= i < old(|objs|) && i != idx ==> objs[i] == old(objs[i])
    {
      hide FreeChain, Link;
      ChainEmpty(objs, hfree, chain);
      if hfree != INVALID_INDEX {
        ChainPop(objs, hfree, chain, elem);
        ContentsWrite(objs, hfree, elem);
        idx := hfree;
        hfree := objs[idx].next;
        objs := objs[idx := Used(elem)];
        chain := chain[1..];
      } else {
        ChainWrite(objs, hfree, chain, objs + [Used(elem)]);
        ContentsWrite(objs, |objs|, elem);
        idx := |objs|;
        objs := objs + [Used(elem)];
      }
      len := len + 1;
      if peak < len { peak := len; }
    }

    method Remove(idx: nat) returns (r: Option<T>)
      requires Valid()
      modifies this
      ensures Valid() && peak == old(peak) && |objs| == old(|objs|)
      ensures r == if idx in old(Map()) then Some(old(Map())[idx]) else None
      ensures Map() == old(Map()) - {idx}
      ensures r.Some? ==> chain == [idx] + old(chain) && len == old(len) - 1
      ensures r.None? ==> chain == old(chain) && objs == old(objs) && len == old(len)
      ensures forall i :: 0 <= i < |objs| && i != idx ==> objs[i] == old(objs[i])
    {
      hide FreeChain, Link;
      r := None;
      if idx < |objs| && objs[idx].Used? {
        ChainPush(objs, hfree, chain, idx);
        ContentsFree(objs, idx, hfree);
        r := Some(objs[idx].elem);
        objs := objs[idx := Free(hfree)];
        hfree := idx;
        len := len - 1;
        chain := [idx] + chain;
      } else {
        assert Contents(objs) - {idx} == Contents(objs);
      }
    }

    method Get(idx: nat) returns (r: Option<T>)
      requires Valid()
      ensures r == if idx in Map() then Some(Map()[idx]) else None
    {
      r := if idx < |objs| && objs[idx].Used? then Some(objs[idx].elem) else None;
    }

    // Writing through `get_unchecked_mut`: the caller knows that the slot is in use.
    method Set(idx: nat, elem: T)
      requires Valid() && idx in Map()
      modifies this
      ensures Valid() && Map() == old(Map())[idx := elem]
      ensures objs == old(objs)[idx := Used(elem)] && chain == old(chain) && len == old(len) && peak == old(peak)
      ensures hfree == old(hfree)
    {
      ChainWrite(objs, hfree, chain, objs[idx := Used(elem)]);
      ContentsWrite(objs, idx, elem);
      objs := objs[idx := Used(elem)];
    }
  }
}
