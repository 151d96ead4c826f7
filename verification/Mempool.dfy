/** The pending transaction pool (miner/mempool.c): a fixed array whose removal overwrites a
    matched slot with the last one and looks at that slot again. */
module Mempool {
  import opened Text
  import opened Blocks
  import opened Validation

  const CAPACITY := 256

  // ---- specification ----

  function AddTx(pool: seq<string>, t: string): Result<seq<string>> {
    if !StorableTx(t) then Err(InvalidTransaction)
    else if |pool| >= CAPACITY then Err(InvalidBlock)
    else Ok(pool + [t])
  }

  /** The last slot overwrites slot i and is given up. */
  function SwapLast(pool: seq<string>, i: nat): (next: seq<string>)
    requires i < |pool|
    ensures |next| == |pool| - 1
  {
    var last := |pool| - 1;
    if i == last then pool[..last] else pool[..last][i := pool[last]]
  }

  /** The pool once every slot from i on was looked at, swapping with the last. */
  function RemoveFrom(pool: seq<string>, included: seq<string>, i: nat): (rest: seq<string>)
    requires i <= |pool|
    ensures |rest| <= |pool|
    decreases |pool| - i
  {
    if i == |pool| then pool
    else if pool[i] in included then RemoveFrom(SwapLast(pool, i), included, i)
    else RemoveFrom(pool, included, i + 1)
  }

  function RemoveIncluded(pool: seq<string>, included: seq<string>): seq<string> {
    RemoveFrom(pool, included, 0)
  }

  /** How often t must be left: never if it is included, as often as before otherwise. */
  function Left(pool: seq<string>, included: seq<string>, t: string): nat {
    if t in included then 0 else multiset(pool)[t]
  }

  lemma MoveLast(a: seq<string>, x: string, b: seq<string>, y: string)
    ensures multiset(a + [x] + b + [y]) == multiset(a + [y] + b) + multiset{x}
  {
  }

  lemma SwapParts(pool: seq<string>, i: nat)
    requires i < |pool| - 1
    ensures var a, b, y := pool[..i], pool[i + 1..|pool| - 1], pool[|pool| - 1];
            pool == a + [pool[i]] + b + [y] && SwapLast(pool, i) == a + [y] + b
  {
  }

  lemma SwapOut(pool: seq<string>, i: nat)
    requires i < |pool|
    ensures multiset(pool) == multiset(SwapLast(pool, i)) + multiset{pool[i]}
    ensures SwapLast(pool, i)[..i] == pool[..i]
  {
    if i == |pool| - 1 {
      assert pool == pool[..i] + [pool[i]];
    } else {
      SwapParts(pool, i);
      MoveLast(pool[..i], pool[i], pool[i + 1..|pool| - 1], pool[|pool| - 1]);
    }
  }

  lemma {:induction false} RemoveFromCounts(pool: seq<string>, included: seq<string>, i: nat, t: string)
    requires i <= |pool| && forall s :: s in pool[..i] ==> s !in included
    ensures multiset(RemoveFrom(pool, included, i))[t] == Left(pool, included, t)
    decreases |pool| - i
  {
    hide SwapLast;
    if i == |pool| {
      assert pool[..i] == pool;
    } else if pool[i] in included {
      SwapOut(pool, i);
      RemoveFromCounts(SwapLast(pool, i), included, i, t);
    } else {
      assert pool[..i + 1] == pool[..i] + [pool[i]];
      RemoveFromCounts(pool, included, i + 1, t);
    }
  }

  /** Conservation: removal drops every copy of an included text and no copy of any other. */
  lemma RemoveIncludedCounts(pool: seq<string>, included: seq<string>, t: string)
    ensures multiset(RemoveIncluded(pool, included))[t] == Left(pool, included, t)
  {
    hide RemoveFrom;
    RemoveFromCounts(pool, included, 0, t);
  }

  lemma RemoveKeepsValid(pool: seq<string>, included: seq<string>)
    requires AllValidTx(pool)
    ensures AllValidTx(RemoveIncluded(pool, included))
  {
    hide ValidTx, RemoveFrom;
    var rest := RemoveIncluded(pool, included);
    forall t | t in rest ensures ValidTx(t) {
      RemoveIncludedCounts(pool, included, t);
      assert t in multiset(rest);
      assert t in multiset(pool);
    }
  }

  // ---- the array ----

  class Pool {
    const slots: array<string>
    var count: nat

    ghost predicate Valid()
      reads this
    {
      slots.Length == CAPACITY && count <= CAPACITY
    }

    function View(): seq<string>
      requires Valid()
      reads this, slots
    {
      slots[..count]
    }

    constructor ()
      ensures Valid() && View() == [] && fresh(slots)
    {
      slots := new string[CAPACITY];
      count := 0;
    }

    /** mempool_add. */
    method Add(t: string) returns (v: Verdict)
      requires Valid()
      modifies this, slots
      ensures Valid()
      ensures match v
              case Pass => AddTx(old(View()), t) == Ok(View())
              case Fail(e) => AddTx(old(View()), t) == Err(e) && View() == old(View())
    {
      if |t| == 0 || |t| >= MAX_TRANSACTION_LENGTH { return Fail(InvalidTransaction); }
      if count >= CAPACITY { return Fail(InvalidBlock); }
      slots[count] := t;
      count := count + 1;
      assert View() == old(View()) + [t];
      v := Pass;
    }

    /** mempool_snapshot: the first entries, none removed. */
    method Snapshot(max: nat) returns (batch: seq<string>)
      requires Valid()
      ensures batch == if |View()| <= max then View() else View()[..max]
    {
      var copied := if count < max then count else max;
      batch := [];
      for i := 0 to copied
        invariant batch == View()[..i]
      {
        batch := batch + [slots[i]];
      }
    }

    /** mempool_remove_included. */
    method Remove(included: seq<string>)
      requires Valid()
      modifies this, slots
      ensures Valid() && View() == RemoveIncluded(old(View()), included)
      ensures forall t :: multiset(View())[t] == Left(old(View()), included, t)
    {
      hide RemoveIncluded, RemoveFrom, SwapLast, Left;
      ghost var whole := View();
      RemoveStart(whole, included);
      var index := 0;
      while index < count
        invariant Valid() && index <= count
        invariant RemoveFrom(View(), included, index) == RemoveIncluded(whole, included)
        decreases count - index
      {
        var matched := false;
        for k := 0 to |included|
          invariant !matched && slots[index] !in included[..k]
        {
          if slots[index] == included[k] { matched := true; break; }
        }
        ghost var pool := View();
        assert pool[index] == slots[index] && (matched <==> pool[index] in included);
        RemoveStep(pool, included, index);
        if matched {
          count := count - 1;
          if index != count { slots[index] := slots[count]; }
          Swapped(pool, index, View());
        } else {
          index := index + 1;
        }
      }
      RemoveEnd(View(), included);
      forall t ensures multiset(View())[t] == Left(whole, included, t) { RemoveIncludedCounts(whole, included, t); }
    }
  }

  lemma RemoveStart(pool: seq<string>, included: seq<string>)
    ensures RemoveFrom(pool, included, 0) == RemoveIncluded(pool, included)
  {
    hide RemoveFrom;
  }

  lemma RemoveStep(pool: seq<string>, included: seq<string>, i: nat)
    requires i < |pool|
    ensures RemoveFrom(pool, included, i) ==
            if pool[i] in included then RemoveFrom(SwapLast(pool, i), included, i)
            else RemoveFrom(pool, included, i + 1)
  {
    hide SwapLast;
  }

  lemma RemoveEnd(pool: seq<string>, included: seq<string>)
    ensures RemoveFrom(pool, included, |pool|) == pool
  {
  }

  lemma Swapped(pool: seq<string>, i: nat, next: seq<string>)
    requires i < |pool| && |next| == |pool| - 1
    requires forall j :: 0 <= j < |next| ==> next[j] == if j == i then pool[|pool| - 1] else pool[j]
    ensures next == SwapLast(pool, i)
  {
  }
}
