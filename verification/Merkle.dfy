/** The Merkle root of common/crypto.c: a level-by-level loop that pads odd levels with
    SHA256(""), its closed form, and what an equal root proves about two lists. */
module Merkle {
  import opened Text
  import opened Hex
  import opened Blocks

  // ---- closed form ----

  /** The number of slots of level k above n leaves, padding left out. */
  function Count(n: nat, k: nat): nat {
    if k == 0 then n else (Count(n, k - 1) + 1) / 2
  }

  /** Two digests one after the other, as text. */
  function Pair(l: string, r: string): string { l + r }

  /** The string hashed for slot i of level k: nothing when the slot is padding, a transaction
      at level 0, the hashes of the two slots below otherwise. */
  function Preimage(h: Hasher, txs: seq<string>, k: nat, i: nat): string
    decreases k, 0
  {
    if i >= Count(|txs|, k) then ""
    else if k == 0 then txs[i]
    else Pair(Node(h, txs, k - 1, 2 * i), Node(h, txs, k - 1, 2 * i + 1))
  }

  function Node(h: Hasher, txs: seq<string>, k: nat, i: nat): Digest
    decreases k, 1
  {
    h(Preimage(h, txs, k, i))
  }

  /** Every string hashed for that slot and the slots below it. */
  function Inputs(h: Hasher, txs: seq<string>, k: nat, i: nat): set<string>
    decreases k
  {
    if i >= Count(|txs|, k) || k == 0 then {Preimage(h, txs, k, i)}
    else {Preimage(h, txs, k, i)} + (Inputs(h, txs, k - 1, 2 * i) + Inputs(h, txs, k - 1, 2 * i + 1))
  }

  /** The height of the tree: at least one round, then until one slot is left. */
  function Depth(n: nat): (d: nat)
    ensures d >= 1 && Count(n, d) <= 1
    ensures forall k :: 1 <= k < d ==> Count(n, k) > 1
  {
    DepthFrom(n, 1)
  }

  function DepthFrom(n: nat, k: nat): (d: nat)
    ensures d >= k && Count(n, d) <= 1
    ensures forall j :: k <= j < d ==> Count(n, j) > 1
    decreases Count(n, k)
  {
    if Count(n, k) <= 1 then k else DepthFrom(n, k + 1)
  }

  function MerkleRoot(h: Hasher, txs: seq<string>): Digest { Node(h, txs, Depth(|txs|), 0) }

  function MerkleInputs(h: Hasher, txs: seq<string>): set<string> { Inputs(h, txs, Depth(|txs|), 0) }

  // The same numbers in powers of two.

  function Pow2(k: nat): (p: nat)
    ensures p > 0
  {
    if k == 0 then 1 else 2 * Pow2(k - 1)
  }

  lemma Halve(i: nat, p: nat)
    ensures i * (2 * p) == (2 * i) * p
  {
  }

  /** Slot i of level k is real exactly when its first leaf, number i * 2^k, is. */
  lemma {:induction false} CountIsCeiling(n: nat, k: nat, i: nat)
    ensures i < Count(n, k) <==> i * Pow2(k) < n
  {
    if k > 0 {
      CountIsCeiling(n, k - 1, 2 * i);
      Halve(i, Pow2(k - 1));
    }
  }

  /** The depth is the least d >= 1 with 2^d >= n. */
  lemma DepthIsLeast(n: nat, d: nat)
    ensures d == Depth(n) <==> d >= 1 && Pow2(d) >= n && (d > 1 ==> Pow2(d - 1) < n)
  {
    var t := Depth(n);
    CountIsCeiling(n, d, 1);
    CountIsCeiling(n, t, 1);
    if d > 1 { CountIsCeiling(n, d - 1, 1); }
    if 1 <= t < d { CountShrinks(n, t, d - 1); }
    if d >= 1 && d < t { assert Count(n, d) > 1; }
  }

  lemma {:induction false} CountShrinks(n: nat, a: nat, b: nat)
    requires a <= b && Count(n, a) <= 1
    ensures Count(n, b) <= 1
  {
    if a < b { CountShrinks(n, a, b - 1); }
  }

  // ---- the loop ----

  /** Everything hashed for the first `count` slots of level k. */
  ghost function SlotInputs(h: Hasher, txs: seq<string>, k: nat, count: nat): set<string> {
    if count == 0 then {} else SlotInputs(h, txs, k, count - 1) + Inputs(h, txs, k, count - 1)
  }

  /** The first `count` slots of level k. */
  function Level(h: Hasher, txs: seq<string>, k: nat, count: nat): (s: seq<string>)
    ensures |s| == count
  {
    if count == 0 then [] else Level(h, txs, k, count - 1) + [Node(h, txs, k, count - 1)]
  }

  lemma {:induction false} LevelAt(h: Hasher, txs: seq<string>, k: nat, count: nat, i: nat)
    requires i < count
    ensures Level(h, txs, k, count)[i] == Node(h, txs, k, i)
  {
    if i < count - 1 { LevelAt(h, txs, k, count - 1, i); }
  }

  lemma PairInputs(h: Hasher, txs: seq<string>, k: nat, i: nat, pairs: set<string>)
    requires i < Count(|txs|, k + 1)
    requires SlotInputs(h, txs, k + 1, i) == SlotInputs(h, txs, k, 2 * i) + pairs
    ensures SlotInputs(h, txs, k + 1, i + 1) ==
            SlotInputs(h, txs, k, 2 * i + 2) + (pairs + {Preimage(h, txs, k + 1, i)})
  {
  }

  lemma NoSlots(h: Hasher, txs: seq<string>, k: nat)
    ensures SlotInputs(h, txs, k, 0) == {}
  {
  }

  lemma PadStep(h: Hasher, txs: seq<string>, k: nat)
    ensures var c := Count(|txs|, k);
            Level(h, txs, k, c + 1) == Level(h, txs, k, c) + [h("")]
            && SlotInputs(h, txs, k, c + 1) == SlotInputs(h, txs, k, c) + {""}
  {
    assert Preimage(h, txs, k, Count(|txs|, k)) == "";
  }

  /** What hashing one pair adds to the next level. */
  lemma PairStep(h: Hasher, txs: seq<string>, k: nat, level: seq<string>, half: nat, hashed: set<string>)
    requires half < Count(|txs|, k + 1) && |level| == 2 * Count(|txs|, k + 1)
    requires level == Level(h, txs, k, |level|)
    requires SlotInputs(h, txs, k + 1, half) == SlotInputs(h, txs, k, 2 * half) + hashed
    ensures var combined := Pair(level[2 * half], level[2 * half + 1]);
            Level(h, txs, k + 1, half + 1) == Level(h, txs, k + 1, half) + [h(combined)]
            && SlotInputs(h, txs, k + 1, half + 1) == SlotInputs(h, txs, k, 2 * half + 2) + (hashed + {combined})
  {
    PairInputs(h, txs, k, half, hashed);
    LevelAt(h, txs, k, |level|, 2 * half);
    LevelAt(h, txs, k, |level|, 2 * half + 1);
    assert Pair(level[2 * half], level[2 * half + 1]) == Preimage(h, txs, k + 1, half);
  }

  /** An odd level is padded in its spare slot. */
  method PadLevel(h: Hasher, ghost txs: seq<string>, ghost k: nat, current: array<string>, count: nat)
    returns (even: nat, ghost hashed: set<string>)
    requires count == Count(|txs|, k) && current.Length > count
    requires current[..count] == Level(h, txs, k, count)
    modifies current
    ensures even == 2 * Count(|txs|, k + 1) <= current.Length
    ensures current[..even] == Level(h, txs, k, even)
    ensures SlotInputs(h, txs, k, even) == SlotInputs(h, txs, k, count) + hashed
  {
    hide Level, SlotInputs, Node, Preimage, Inputs;
    even, hashed := count, {};
    if count % 2 != 0 {
      PadStep(h, txs, k);
      current[count] := h("");
      even, hashed := count + 1, {""};
      assert current[..even] == current[..count] + [h("")];
    }
  }

  /** The slots are hashed in pairs into a fresh level. */
  method PairLevel(h: Hasher, ghost txs: seq<string>, ghost k: nat, current: array<string>, even: nat)
    returns (next: array<string>, nextCount: nat, ghost hashed: set<string>)
    requires even == 2 * Count(|txs|, k + 1) <= current.Length
    requires current[..even] == Level(h, txs, k, even)
    ensures fresh(next) && next.Length > nextCount == Count(|txs|, k + 1)
    ensures next[..nextCount] == Level(h, txs, k + 1, nextCount)
    ensures SlotInputs(h, txs, k + 1, nextCount) == SlotInputs(h, txs, k, even) + hashed
  {
    hide Level, SlotInputs, Count, Pair, Node, Preimage, Inputs;
    hashed := {};
    nextCount := even / 2;
    NoSlots(h, txs, k);
    NoSlots(h, txs, k + 1);
    next := new string[nextCount + 1];
    var index := 0;
    ghost var half, level := 0, current[..even];
    while index < even
      invariant index == 2 * half && half <= nextCount
      invariant current[..even] == level && next[..half] == Level(h, txs, k + 1, half)
      invariant SlotInputs(h, txs, k + 1, half) == SlotInputs(h, txs, k, 2 * half) + hashed
    {
      PairStep(h, txs, k, level, half, hashed);
      assert current[index] == level[2 * half] && current[index + 1] == level[2 * half + 1] && index / 2 == half;
      var combined := Pair(current[index], current[index + 1]);
      ghost var done := next[..half];
      next[index / 2] := h(combined);
      assert next[..half + 1] == done + [h(combined)];
      hashed := hashed + {combined};
      index, half := index + 2, half + 1;
    }
  }

  /** calculate_merkle_root: the loop computes the closed form, and `hashed` is the set of all
      strings it hashed. */
  method CalculateMerkleRoot(h: Hasher, txs: seq<string>) returns (r: Result<string>, ghost hashed: set<string>)
    ensures r == if txs == [] then Err(InvalidArgument) else Ok(MerkleRoot(h, txs))
    ensures txs != [] ==> hashed == MerkleInputs(h, txs)
  {
    hashed := {};
    if |txs| == 0 { return Err(InvalidArgument), hashed; }
    var current := new string[|txs| + 1];
    for i := 0 to |txs|
      invariant current[..i] == Level(h, txs, 0, i)
      invariant hashed == SlotInputs(h, txs, 0, i)
    {
      current[i] := h(txs[i]);
      assert current[..i + 1] == current[..i] + [h(txs[i])];
      hashed := hashed + {txs[i]};
    }
    var count: nat := |txs|;
    ghost var k := 0;
    var again := true;
    while again
      invariant fresh(current) && current.Length > count
      invariant 0 < count == Count(|txs|, k)
      invariant k <= Depth(|txs|)
      invariant again <==> k < Depth(|txs|)
      invariant current[..count] == Level(h, txs, k, count)
      invariant hashed == SlotInputs(h, txs, k, count)
      decreases Depth(|txs|) - k
    {
      ghost var padding, pairs;
      var even;
      even, padding := PadLevel(h, txs, k, current, count);
      current, count, pairs := PairLevel(h, txs, k, current, even);
      hashed := hashed + padding + pairs;
      k := k + 1;
      again := count > 1;
    }
    assert SlotInputs(h, txs, k, 1) == SlotInputs(h, txs, k, 0) + Inputs(h, txs, k, 0);
    LevelAt(h, txs, k, 1, 0);
    r := Ok(current[..count][0]);
  }

  // ---- the same root, list by list ----

  function HashEach(h: Hasher, txs: seq<string>): (level: seq<string>)
    ensures |level| == |txs| && forall i :: 0 <= i < |txs| ==> level[i] == h(txs[i])
  {
    if txs == [] then [] else [h(txs[0])] + HashEach(h, txs[1..])
  }

  /** The next level: neighbours hashed together, a single one at the end with SHA256(""). */
  function LevelUp(h: Hasher, level: seq<string>): (up: seq<string>)
    ensures |up| == (|level| + 1) / 2
    decreases |level|
  {
    if level == [] then []
    else if |level| == 1 then [h(level[0] + h(""))]
    else [h(level[0] + level[1])] + LevelUp(h, level[2..])
  }

  /** At least one round, until one digest is left. */
  function Reduce(h: Hasher, level: seq<string>): string
    requires level != []
    decreases |level|
  {
    if |level| <= 2 then LevelUp(h, level)[0] else Reduce(h, LevelUp(h, level))
  }

  lemma {:induction false} LevelUpAt(h: Hasher, level: seq<string>, i: nat)
    requires 2 * i < |level|
    ensures LevelUp(h, level)[i] == h(level[2 * i] + if 2 * i + 1 < |level| then level[2 * i + 1] else h(""))
    decreases i
  {
    if i > 0 {
      LevelUpAt(h, level[2..], i - 1);
      assert level[2..][2 * (i - 1)] == level[2 * i];
    }
  }

  lemma LevelUpIsLevel(h: Hasher, txs: seq<string>, k: nat)
    ensures var n, m := Count(|txs|, k), Count(|txs|, k + 1);
            LevelUp(h, Level(h, txs, k, n)) == Level(h, txs, k + 1, m)
  {
    hide Level, LevelUp, Node;
    var n, m := Count(|txs|, k), Count(|txs|, k + 1);
    var level, up := Level(h, txs, k, n), Level(h, txs, k + 1, m);
    forall i | 0 <= i < m ensures LevelUp(h, level)[i] == up[i] {
      LevelUpAt(h, level, i);
      LevelAt(h, txs, k + 1, m, i);
      LevelAt(h, txs, k, n, 2 * i);
      if 2 * i + 1 < n { LevelAt(h, txs, k, n, 2 * i + 1); }
      NodeAbove(h, txs, k, i);
    }
  }

  lemma NodeAbove(h: Hasher, txs: seq<string>, k: nat, i: nat)
    requires i < Count(|txs|, k + 1)
    ensures Node(h, txs, k + 1, i) ==
            h(Node(h, txs, k, 2 * i) + if 2 * i + 1 < Count(|txs|, k) then Node(h, txs, k, 2 * i + 1) else h(""))
  {
    assert Preimage(h, txs, k + 1, i) == Pair(Node(h, txs, k, 2 * i), Node(h, txs, k, 2 * i + 1));
    if 2 * i + 1 >= Count(|txs|, k) { assert Preimage(h, txs, k, 2 * i + 1) == ""; }
  }

  lemma LeavesAreHashes(h: Hasher, txs: seq<string>)
    ensures Level(h, txs, 0, |txs|) == HashEach(h, txs)
  {
    hide Level, HashEach;
    forall i | 0 <= i < |txs| ensures Level(h, txs, 0, |txs|)[i] == HashEach(h, txs)[i] {
      LevelAt(h, txs, 0, |txs|, i);
    }
  }

  lemma {:induction false} ReduceLevel(h: Hasher, txs: seq<string>, k: nat)
    requires txs != [] && k < Depth(|txs|)
    ensures Count(|txs|, k) > 0 && Reduce(h, Level(h, txs, k, Count(|txs|, k))) == MerkleRoot(h, txs)
    decreases Depth(|txs|) - k
  {
    hide Level, LevelUp, Node, DepthFrom;
    AboveIsReal(|txs|, k, 0);
    AboveIsReal(|txs|, k + 1, 0);
    LevelUpIsLevel(h, txs, k);
    if k + 1 == Depth(|txs|) {
      LevelAt(h, txs, k + 1, 1, 0);
    } else {
      ReduceLevel(h, txs, k + 1);
    }
  }

  /** The closed form is the root that hashing level after level gives. */
  lemma RootIsReduced(h: Hasher, txs: seq<string>)
    requires txs != []
    ensures MerkleRoot(h, txs) == Reduce(h, HashEach(h, txs))
  {
    hide Level, Node, DepthFrom, Reduce, HashEach;
    LeavesAreHashes(h, txs);
    ReduceLevel(h, txs, 0);
  }

  // ---- binding ----

  /** Two different strings, one of each set, have the same hash. */
  ghost predicate Collision(h: Hasher, xs: set<string>, ys: set<string>) {
    exists x, y :: x in xs && y in ys && x != y && h(x) == h(y)
  }

  /** Not the empty padding and not two digests in a row. */
  predicate LeafText(t: string) { t != "" && !(|t| == 2 * HASH_LENGTH && AllLowerHex(t)) }

  predicate LeafTexts(txs: seq<string>) { forall i :: 0 <= i < |txs| ==> LeafText(txs[i]) }

  predicate NoEmptyText(txs: seq<string>) { forall i :: 0 <= i < |txs| ==> txs[i] != "" }

  predicate SameLeaf(a: seq<string>, b: seq<string>, j: nat) {
    (j < |a| <==> j < |b|) && (j < |a| && j < |b| ==> a[j] == b[j])
  }

  /** The two lists agree on every leaf below slot i of level k. */
  predicate SameBelow(a: seq<string>, b: seq<string>, k: nat, i: nat) {
    if k == 0 then SameLeaf(a, b, i)
    else SameBelow(a, b, k - 1, 2 * i) && SameBelow(a, b, k - 1, 2 * i + 1)
  }

  lemma {:induction false} PaddingBelow(a: seq<string>, b: seq<string>, k: nat, i: nat)
    requires i >= Count(|a|, k) && i >= Count(|b|, k)
    ensures SameBelow(a, b, k, i)
  {
    if k > 0 {
      PaddingBelow(a, b, k - 1, 2 * i);
      PaddingBelow(a, b, k - 1, 2 * i + 1);
    }
  }

  /** The slot of level k above leaf j. */
  function Above(j: nat, k: nat): nat { if k == 0 then j else Above(j, k - 1) / 2 }

  lemma {:induction false} LeafBelow(a: seq<string>, b: seq<string>, k: nat, j: nat)
    requires SameBelow(a, b, k, Above(j, k))
    ensures SameLeaf(a, b, j)
  {
    if k > 0 { LeafBelow(a, b, k - 1, j); }
  }

  lemma {:induction false} AboveIsReal(n: nat, k: nat, j: nat)
    requires j < n
    ensures Above(j, k) < Count(n, k)
  {
    if k > 0 { AboveIsReal(n, k - 1, j); }
  }

  lemma SameLists(a: seq<string>, b: seq<string>, d: nat)
    requires SameBelow(a, b, d, 0) && Count(|a|, d) <= 1 && Count(|b|, d) <= 1
    ensures a == b
  {
    forall j: nat | j < |a| || j < |b| ensures SameLeaf(a, b, j) {
      AboveIsReal(if j < |a| then |a| else |b|, d, j);
      LeafBelow(a, b, d, j);
    }
    assert |a| < |b| ==> SameLeaf(a, b, |a|);
    assert |b| < |a| ==> SameLeaf(a, b, |b|);
    forall j | 0 <= j < |a| ensures a[j] == b[j] { assert SameLeaf(a, b, j); }
  }

  /** An inner preimage is told from a leaf and from padding, and gives back its halves. */
  lemma InnerPreimage(h: Hasher, txs: seq<string>, k: nat, i: nat)
    requires i < Count(|txs|, k) && k > 0
    ensures var p := Preimage(h, txs, k, i);
            |p| == 2 * HASH_LENGTH && AllLowerHex(p)
            && p[..HASH_LENGTH] == Node(h, txs, k - 1, 2 * i)
            && p[HASH_LENGTH..] == Node(h, txs, k - 1, 2 * i + 1)
  {
    var l: string, r: string := Node(h, txs, k - 1, 2 * i), Node(h, txs, k - 1, 2 * i + 1);
    assert IsHash(l) && IsHash(r);
    assert Preimage(h, txs, k, i) == l + r;
  }

  /** Equal slots of the same level have the same leaves below them, or a collision does. */
  lemma {:induction false} NodesBind(h: Hasher, a: seq<string>, b: seq<string>, k: nat, i: nat)
    requires NoEmptyText(a) && NoEmptyText(b)
    requires Node(h, a, k, i) == Node(h, b, k, i)
    ensures SameBelow(a, b, k, i) || Collision(h, Inputs(h, a, k, i), Inputs(h, b, k, i))
    decreases k
  {
    hide Collision, SameBelow, Count, Inputs, Node;
    if Preimage(h, a, k, i) != Preimage(h, b, k, i) {
      HereCollides(h, a, k, b, k, i);
    } else {
      SameKind(h, a, b, k, i);
      if i >= Count(|a|, k) {
        PaddingBelow(a, b, k, i);
      } else if k == 0 {
        LeafSame(h, a, b, i);
      } else {
        InnerPreimage(h, a, k, i);
        InnerPreimage(h, b, k, i);
        NodesBind(h, a, b, k - 1, 2 * i);
        NodesBind(h, a, b, k - 1, 2 * i + 1);
        BelowBoth(a, b, k, i);
        if !SameBelow(a, b, k, i) { Widen(h, a, k, b, k, i); }
      }
    }
  }

  lemma HereCollides(h: Hasher, a: seq<string>, k: nat, b: seq<string>, m: nat, i: nat)
    requires Node(h, a, k, i) == Node(h, b, m, i) && Preimage(h, a, k, i) != Preimage(h, b, m, i)
    ensures Collision(h, Inputs(h, a, k, i), Inputs(h, b, m, i))
  {
    hide Preimage, Count;
    var p, q := Preimage(h, a, k, i), Preimage(h, b, m, i);
    assert h(p) == Node(h, a, k, i) && h(q) == Node(h, b, m, i);
    assert p in Inputs(h, a, k, i) && q in Inputs(h, b, m, i);
  }

  /** Equal preimages are both padding or both real. */
  lemma SameKind(h: Hasher, a: seq<string>, b: seq<string>, k: nat, i: nat)
    requires NoEmptyText(a) && NoEmptyText(b) && Preimage(h, a, k, i) == Preimage(h, b, k, i)
    ensures i < Count(|a|, k) <==> i < Count(|b|, k)
  {
    RealIsText(h, a, k, i);
    RealIsText(h, b, k, i);
  }

  lemma RealIsText(h: Hasher, txs: seq<string>, k: nat, i: nat)
    requires NoEmptyText(txs)
    ensures Preimage(h, txs, k, i) != "" <==> i < Count(|txs|, k)
  {
    if i < Count(|txs|, k) {
      if k > 0 { InnerPreimage(h, txs, k, i); }
    }
  }

  lemma LeafSame(h: Hasher, a: seq<string>, b: seq<string>, i: nat)
    requires i < Count(|a|, 0) && i < Count(|b|, 0) && Preimage(h, a, 0, i) == Preimage(h, b, 0, i)
    ensures SameBelow(a, b, 0, i)
  {
  }

  lemma BelowBoth(a: seq<string>, b: seq<string>, k: nat, i: nat)
    requires k > 0
    ensures SameBelow(a, b, k, i) <==> SameBelow(a, b, k - 1, 2 * i) && SameBelow(a, b, k - 1, 2 * i + 1)
  {
  }

  lemma Widen(h: Hasher, a: seq<string>, k: nat, b: seq<string>, m: nat, i: nat)
    requires k > 0 && m > 0 && i < Count(|a|, k) && i < Count(|b|, m)
    requires Collision(h, Inputs(h, a, k - 1, 2 * i), Inputs(h, b, m - 1, 2 * i))
             || Collision(h, Inputs(h, a, k - 1, 2 * i + 1), Inputs(h, b, m - 1, 2 * i + 1))
    ensures Collision(h, Inputs(h, a, k, i), Inputs(h, b, m, i))
  {
  }

  /** A deeper tree cannot share its root with a shallower one: going down the left edge, a
      leaf would meet an inner node. */
  lemma {:induction false} LeftEdge(h: Hasher, a: seq<string>, k: nat, b: seq<string>, m: nat)
    requires a != [] && b != [] && LeafTexts(b) && k > m
    requires Node(h, a, k, 0) == Node(h, b, m, 0)
    ensures Collision(h, Inputs(h, a, k, 0), Inputs(h, b, m, 0))
    decreases m
  {
    var p, q := Preimage(h, a, k, 0), Preimage(h, b, m, 0);
    assert p in Inputs(h, a, k, 0) && q in Inputs(h, b, m, 0);
    AboveIsReal(|a|, k, 0);
    AboveIsReal(|b|, m, 0);
    InnerPreimage(h, a, k, 0);
    if m > 0 && p == q {
      InnerPreimage(h, b, m, 0);
      LeftEdge(h, a, k - 1, b, m - 1);
    } else {
      assert m == 0 ==> LeafText(b[0]);
    }
  }

  lemma CollisionSymmetric(h: Hasher, xs: set<string>, ys: set<string>)
    requires Collision(h, xs, ys)
    ensures Collision(h, ys, xs)
  {
    var x, y :| x in xs && y in ys && x != y && h(x) == h(y);
    assert y in ys && x in xs && y != x && h(y) == h(x);
  }

  /** Equal roots mean equal lists, whatever their lengths and depths, or two of the strings
      hashed on the way collide. */
  lemma MerkleBinding(h: Hasher, a: seq<string>, b: seq<string>)
    requires a != [] && b != [] && LeafTexts(a) && LeafTexts(b)
    requires MerkleRoot(h, a) == MerkleRoot(h, b)
    ensures a == b || Collision(h, MerkleInputs(h, a), MerkleInputs(h, b))
  {
    var k, m := Depth(|a|), Depth(|b|);
    if k > m {
      LeftEdge(h, a, k, b, m);
    } else if m > k {
      LeftEdge(h, b, m, a, k);
      CollisionSymmetric(h, MerkleInputs(h, b), MerkleInputs(h, a));
    } else {
      LeavesNotEmpty(a);
      LeavesNotEmpty(b);
      NodesBind(h, a, b, k, 0);
      if SameBelow(a, b, k, 0) { SameLists(a, b, k); }
    }
  }

  lemma LeavesNotEmpty(txs: seq<string>)
    requires LeafTexts(txs)
    ensures NoEmptyText(txs)
  {
    forall i | 0 <= i < |txs| ensures txs[i] != "" { assert LeafText(txs[i]); }
  }

  // ---- lists that also join alike ----

  /** No leaf below slot i of level m holds a colon. */
  predicate PlainBelow(b: seq<string>, m: nat, i: nat) {
    if m == 0 then i < |b| ==> ':' !in b[i] else PlainBelow(b, m - 1, 2 * i) && PlainBelow(b, m - 1, 2 * i + 1)
  }

  lemma {:induction false} PlainPadding(b: seq<string>, m: nat, i: nat)
    requires i >= Count(|b|, m)
    ensures PlainBelow(b, m, i)
  {
    if m > 0 {
      PlainPadding(b, m - 1, 2 * i);
      PlainPadding(b, m - 1, 2 * i + 1);
    }
  }

  lemma {:induction false} LeafPlain(b: seq<string>, m: nat, j: nat)
    requires PlainBelow(b, m, Above(j, m)) && j < |b|
    ensures ':' !in b[j]
  {
    if m > 0 { LeafPlain(b, m - 1, j); }
  }

  lemma PlainLeaves(b: seq<string>, m: nat)
    requires PlainBelow(b, m, 0) && Count(|b|, m) <= 1
    ensures forall t :: t in b ==> ':' !in t
  {
    forall j | 0 <= j < |b| ensures ':' !in b[j] {
      AboveIsReal(|b|, m, j);
      LeafPlain(b, m, j);
    }
  }

  lemma RealPreimage(h: Hasher, txs: seq<string>, k: nat, i: nat)
    requires Preimage(h, txs, k, i) != ""
    ensures i < Count(|txs|, k)
  {
  }

  lemma HexHoldsNoColon(s: string)
    requires AllLowerHex(s)
    ensures ':' !in s
  {
  }

  /** Below a slot of a shallow tree that equals one of a deeper tree every leaf is the text of an
      inner node, or two hashed strings collide. */
  lemma {:induction false} DeeperBinds(h: Hasher, a: seq<string>, k: nat, b: seq<string>, m: nat, i: nat)
    requires NoEmptyText(b) && k > m && Node(h, a, k, i) == Node(h, b, m, i)
    ensures PlainBelow(b, m, i) || Collision(h, Inputs(h, a, k, i), Inputs(h, b, m, i))
    decreases m
  {
    hide Collision, PlainBelow, Count, Inputs, Node, Preimage;
    if Preimage(h, a, k, i) != Preimage(h, b, m, i) {
      HereCollides(h, a, k, b, m, i);
    } else if i >= Count(|b|, m) {
      PlainPadding(b, m, i);
    } else {
      RealIsText(h, b, m, i);
      RealPreimage(h, a, k, i);
      InnerPreimage(h, a, k, i);
      if m == 0 {
        HexHoldsNoColon(Preimage(h, a, k, i));
        PlainHere(h, b, i);
      } else {
        InnerPreimage(h, b, m, i);
        DeeperBinds(h, a, k - 1, b, m - 1, 2 * i);
        DeeperBinds(h, a, k - 1, b, m - 1, 2 * i + 1);
        PlainBoth(b, m, i);
        if !PlainBelow(b, m, i) { Widen(h, a, k, b, m, i); }
      }
    }
  }

  lemma PlainHere(h: Hasher, b: seq<string>, i: nat)
    requires i < Count(|b|, 0) && ':' !in Preimage(h, b, 0, i)
    ensures PlainBelow(b, 0, i)
  {
  }

  lemma PlainBoth(b: seq<string>, m: nat, i: nat)
    requires m > 0
    ensures PlainBelow(b, m, i) <==> PlainBelow(b, m - 1, 2 * i) && PlainBelow(b, m - 1, 2 * i + 1)
  {
  }

  lemma {:induction false} CountMonotone(m: nat, n: nat, k: nat)
    requires m <= n
    ensures Count(m, k) <= Count(n, k)
  {
    if k > 0 { CountMonotone(m, n, k - 1); }
  }

  lemma DepthMonotone(m: nat, n: nat)
    requires m <= n
    ensures Depth(m) <= Depth(n)
  {
    hide Count;
    CountMonotone(m, n, Depth(n));
  }

  /** Equal roots at different depths cannot join to the same text. */
  lemma DeeperJoins(h: Hasher, a: seq<string>, b: seq<string>)
    requires a != [] && b != [] && NoEmptyText(b) && Depth(|a|) > Depth(|b|)
    requires MerkleRoot(h, a) == MerkleRoot(h, b) && Join(a) == Join(b)
    ensures Collision(h, MerkleInputs(h, a), MerkleInputs(h, b))
  {
    hide Collision, PlainBelow, Inputs, Node, Join, Split, Depth, Count;
    var k, m := Depth(|a|), Depth(|b|);
    DeeperBinds(h, a, k, b, m, 0);
    if PlainBelow(b, m, 0) {
      PlainLeaves(b, m);
      PlainShaped(b);
      SplitJoin(b);
      JoinCount(a);
      DepthMonotone(|a|, |b|);
    }
  }

  lemma PlainShaped(b: seq<string>)
    requires forall t :: t in b ==> ':' !in t
    ensures Shaped(b)
  {
    forall i | 0 <= i < |b| ensures NoSep(b[i]) && !EndsInColon(b[i]) { assert b[i] in b; }
    forall t | t in b ensures NoSep(t) { }
  }

  /** Two lists with equal roots that also join to the same text are equal, whatever their
      entries, or two of the strings hashed on the way collide. */
  lemma JoinedBinding(h: Hasher, a: seq<string>, b: seq<string>)
    requires a != [] && b != [] && NoEmptyText(a) && NoEmptyText(b)
    requires MerkleRoot(h, a) == MerkleRoot(h, b) && Join(a) == Join(b)
    ensures a == b || Collision(h, MerkleInputs(h, a), MerkleInputs(h, b))
  {
    hide Collision, Inputs, Node, Join, Count, DepthFrom, SameBelow;
    var k, m := Depth(|a|), Depth(|b|);
    if k > m {
      DeeperJoins(h, a, b);
    } else if m > k {
      DeeperJoins(h, b, a);
      CollisionSymmetric(h, MerkleInputs(h, b), MerkleInputs(h, a));
    } else {
      NodesBind(h, a, b, k, 0);
      if SameBelow(a, b, k, 0) { SameLists(a, b, k); }
    }
  }

  /** The restriction to LeafTexts is needed: a list whose entries are digest pairs has the
      root of the list those digests came from. Computing it hashes nothing that was not hashed
      for the longer list, so the second root adds no collision. */
  lemma LevelConfusion(h: Hasher, s: string, t: string, u: string, v: string)
    ensures var a, b := [s, t, u, v], [Pair(h(s), h(t)), Pair(h(u), h(v))];
            a != b && MerkleRoot(h, a) == MerkleRoot(h, b) && MerkleInputs(h, b) <= MerkleInputs(h, a)
  {
    var st, uv := Pair(h(s), h(t)), Pair(h(u), h(v));
    var a, b := [s, t, u, v], [st, uv];
    assert Count(4, 1) == 2 && Count(4, 2) == 1 && Count(2, 1) == 1;
    assert Depth(4) == 2 && Depth(2) == 1;
    assert Preimage(h, a, 1, 0) == st == Preimage(h, b, 0, 0);
    assert Preimage(h, a, 1, 1) == uv == Preimage(h, b, 0, 1);
    assert Preimage(h, a, 2, 0) == Preimage(h, b, 1, 0);
    assert Inputs(h, b, 0, 0) == {st} && Inputs(h, b, 0, 1) == {uv};
    assert st in Inputs(h, a, 1, 0) && uv in Inputs(h, a, 1, 1);
  }
}
