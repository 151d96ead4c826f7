/** Mining end to end: what becomes of a candidate over the runs of the protocol. */
module MiningRuns {
  import opened Text
  import opened Hex
  import opened Blocks
  import opened Merkle
  import opened Hashing
  import opened Validation
  import opened Mempool
  import opened NodeHandlers
  import opened Candidates
  import opened MinerProcess
  import opened Protocol

  /** What miner m makes of its view in state s and its pool in state u. */
  function Mined(h: Hasher, s: State, u: State, m: nat, timestamp: U64, nonce: U64): Block
    requires m in s.miners && m in u.miners
  {
    Candidate(h, s.miners[m].next, s.miners[m].previous, timestamp, nonce, Batch(u.miners[m].pool))
  }

  lemma BatchIsGood(pool: seq<string>)
    requires AllValidTx(pool) && pool != []
    ensures GoodBatch(Batch(pool))
  {
    hide ValidTx;
  }

  lemma ViewGrows(h: Hasher, c: seq<Block>, c': seq<Block>, next: nat, previous: string)
    requires c <= c' && ViewOf(h, c, next, previous)
    ensures ViewOf(h, c', next, previous)
  {
    hide HashOf;
  }

  lemma MinedExact(h: Hasher, s: State, u: State, t: State, m: nat, timestamp: U64, nonce: U64)
    requires Inv(h, s) && Inv(h, u) && Inv(h, t) && s.chain <= t.chain
    requires m in s.miners && m in u.miners && u.miners[m].pool != [] && |t.chain| < MAX_BLOCKS
    ensures var b := Mined(h, s, u, m, timestamp, nonce);
            OnProposal(h, t.chain, CsvLine(b)) ==
            if b.index == |t.chain| && (t.chain != [] ==> t.chain[|t.chain| - 1].timestamp <= timestamp)
            then Handled(t.chain + [b], Accepted, Some(CsvLine(b)))
            else Handled(t.chain, Invalid, None)
  {
    hide GoodChain, OnProposal, CsvLine, ViewOf, AllValidTx, DecisionsOk, CommitsOk;
    hide RepliesOk, LookupsOk, GoodBatch, Batch, Safe;
    BatchIsGood(u.miners[m].pool);
    ViewGrows(h, s.chain, t.chain, s.miners[m].next, s.miners[m].previous);
    CandidateExact(h, t.chain, s.miners[m].next, s.miners[m].previous, timestamp, nonce, Batch(u.miners[m].pool));
  }

  /** A miner reads its view, takes its batch some steps later, and proposes after yet more
      steps: node 0 appends and broadcasts the candidate exactly when the view that was read is
      still current and the clock is not behind the tip; otherwise it rejects it as invalid. */
  lemma MiningExact(h: Hasher, initial: seq<Block>, before: seq<Step>, between: seq<Step>, after: seq<Step>,
                    m: nat, timestamp: U64, nonce: U64)
    requires GoodChain(h, initial)
    ensures var s := Run(h, Init(initial), before);
            var u := Run(h, s, between);
            var t := Run(h, u, after);
            m in s.miners && m in u.miners && u.miners[m].pool != [] && |t.chain| < MAX_BLOCKS ==>
              var b := Mined(h, s, u, m, timestamp, nonce);
              OnProposal(h, t.chain, CsvLine(b)) ==
              if b.index == |t.chain| && (t.chain != [] ==> t.chain[|t.chain| - 1].timestamp <= timestamp)
              then Handled(t.chain + [b], Accepted, Some(CsvLine(b)))
              else Handled(t.chain, Invalid, None)
  {
    hide Run, Inv, GoodChain, OnProposal, CsvLine, Mined;
    InitInv(h, initial);
    RunKeeps(h, Init(initial), before);
    var s := Run(h, Init(initial), before);
    RunKeeps(h, s, between);
    RunGrows(h, s, between);
    var u := Run(h, s, between);
    RunKeeps(h, u, after);
    RunGrows(h, u, after);
    var t := Run(h, u, after);
    if m in s.miners && m in u.miners && u.miners[m].pool != [] && |t.chain| < MAX_BLOCKS {
      MinedExact(h, s, u, t, m, timestamp, nonce);
    }
  }

  /** The state of miner m after the commit of node 0's newest block: the view is current, and
      no transaction of the block is pending. */
  ghost predicate CaughtUp(h: Hasher, c: seq<Block>, m: MinerState) {
    && c != [] && m.next == |c| && m.previous == HashOf(h, c[|c| - 1])
    && forall t :: t in c[|c| - 1].transactions ==> multiset(m.pool)[t] == 0
  }

  lemma MinerCatchesUp(h: Hasher, c: seq<Block>, m: MinerState)
    requires GoodChain(h, c) && m.next < |c|
    ensures CaughtUp(h, c, OnBlockCommit(h, m, CsvLine(c[|c| - 1])))
  {
    hide GoodChain, FromCsv, CsvLine, Printable, HashInput, RemoveFrom;
    GoodSize(h, c);
    var b := c[|c| - 1];
    GoodBlock(h, c, |c| - 1);
    forall t | t in b.transactions ensures multiset(RemoveIncluded(m.pool, b.transactions))[t] == 0 {
      RemoveIncludedCounts(m.pool, b.transactions, t);
    }
  }

  /** A proposal that is broadcast completes the round: whoever was at the old tip is at the new
      one when the commit arrives, and so is every miner. */
  lemma RoundCompletes(h: Hasher, initial: seq<Block>, steps: seq<Step>, payload: string, m: nat, f: nat)
    requires GoodChain(h, initial)
    ensures var s := Run(h, Init(initial), steps);
            var broadcast := OnProposal(h, s.chain, payload).broadcast;
            var p := Next(h, s, Propose(payload));
            broadcast.Some? ==>
              var u := Next(h, p, CommitToMiner(m, broadcast.value));
              var v := Next(h, p, DeliverCommit(f, broadcast.value));
              && |p.chain| == |s.chain| + 1
              && (m in s.miners ==> m in u.miners && CaughtUp(h, p.chain, u.miners[m]))
              && (f in s.followers && s.followers[f] == s.chain ==>
                    f in v.followers && v.followers[f] == p.chain)
  {
    hide Run, GoodChain, OnProposal, CsvLine, OnBlockCommit, OnCommit, CaughtUp, HashOf, Printable, FromCsv;
    hide DecisionsOk, CommitsOk, RepliesOk, LookupsOk;
    InitInv(h, initial);
    RunKeeps(h, Init(initial), steps);
    var s := Run(h, Init(initial), steps);
    if OnProposal(h, s.chain, payload).broadcast.Some? {
      ProposalKeepsGood(h, s.chain, payload);
      var c := OnProposal(h, s.chain, payload).chain;
      if m in s.miners { MinerCatchesUp(h, c, s.miners[m]); }
      CommitAtPrefix(h, c, |s.chain|, |s.chain|);
      assert c[..|s.chain| + 1] == c;
    }
  }

  // ---- the view over runs ----

  /** A new miner knows nothing: it would mine the genesis block, and nothing is pending. */
  lemma MinerStarts(h: Hasher, s: State, m: nat)
    requires m !in s.miners
    ensures var n := Next(h, s, StartMiner(m));
            m in n.miners && n.miners[m].next == 0 && n.miners[m].previous == ZEROS && n.miners[m].pool == []
  {
  }

  predicate ResyncStep(step: Step, m: nat) {
    (step.HeightReply? && step.m == m) || (step.BlockReply? && step.m == m)
  }

  lemma CommitNext(h: Hasher, s: State, m: nat, line: string)
    requires Inv(h, s) && m in s.miners && line in s.commits
    ensures s.miners[m].next <= OnBlockCommit(h, s.miners[m], line).next
  {
    hide GoodChain, MinersInv, DecisionsOk, RepliesOk, Printable, CsvLine, OnBlockCommit;
    var j :| 0 <= j < |s.chain| && Printable(s.chain[j]) && line == CsvLine(s.chain[j]);
    CommitView(h, s.chain, s.miners[m], j);
  }

  /** Only a commit or a resync moves a view. */
  lemma ViewRests(h: Hasher, s: State, step: Step, m: nat)
    requires m in s.miners && !ResyncStep(step, m) && !(step.CommitToMiner? && step.m == m)
    ensures var n := Next(h, s, step);
            m in n.miners && n.miners[m].next == s.miners[m].next && n.miners[m].previous == s.miners[m].previous
  {
    hide FromCsv, OnProposal, OnCommit, OnSyncReply, OnSyncRequest, OnQueryIndex, HashOf, OnBlockCommit, Matches;
  }

  lemma NextForward(h: Hasher, s: State, step: Step, m: nat)
    requires Inv(h, s) && m in s.miners && !ResyncStep(step, m)
    ensures m in Next(h, s, step).miners && s.miners[m].next <= Next(h, s, step).miners[m].next
  {
    hide Inv, OnBlockCommit, ResyncStep;
    if step.CommitToMiner? && step.m == m {
      if step.line in s.commits { CommitNext(h, s, m, step.line); }
    } else {
      ViewRests(h, s, step, m);
    }
  }

  lemma {:induction false} RunForward(h: Hasher, s: State, steps: seq<Step>, m: nat)
    requires Inv(h, s) && m in s.miners && forall i :: 0 <= i < |steps| ==> !ResyncStep(steps[i], m)
    ensures m in Run(h, s, steps).miners && s.miners[m].next <= Run(h, s, steps).miners[m].next
    decreases |steps|
  {
    hide Inv, Next, ResyncStep;
    if steps != [] {
      NextKeeps(h, s, steps[0]);
      NextForward(h, s, steps[0], m);
      RunForward(h, Next(h, s, steps[0]), steps[1..], m);
    }
  }

  /** Without a resync a miner's view never goes back, however late, often or out of order the
      commits arrive. */
  lemma ViewNeverBack(h: Hasher, initial: seq<Block>, before: seq<Step>, steps: seq<Step>, m: nat)
    requires GoodChain(h, initial)
    ensures var s := Run(h, Init(initial), before);
            m in s.miners && (forall i :: 0 <= i < |steps| ==> !ResyncStep(steps[i], m)) ==>
              m in Run(h, s, steps).miners && s.miners[m].next <= Run(h, s, steps).miners[m].next
  {
    hide Run, Inv, GoodChain, ResyncStep;
    InitInv(h, initial);
    RunKeeps(h, Init(initial), before);
    var s := Run(h, Init(initial), before);
    if m in s.miners && forall i :: 0 <= i < |steps| ==> !ResyncStep(steps[i], m) { RunForward(h, s, steps, m); }
  }

  // ---- a resync over runs ----

  lemma AskedHeight(h: Hasher, s: State, m: nat)
    ensures (m, |s.chain|) in Next(h, s, AskHeight(m)).heights && Next(h, s, AskHeight(m)).miners == s.miners
  {
  }

  lemma HeightArrives(h: Hasher, s: State, m: nat, height: nat)
    requires m in s.miners && (m, height) in s.heights
    ensures var n := Next(h, s, HeightReply(m, height));
            && n.chain == s.chain && m in n.miners
            && (height == 0 ==> n.miners[m] == OnEmptyChain(s.miners[m]))
            && (height > 0 ==> n.miners == s.miners && (m, OnQueryIndex(s.chain, height - 1)) in n.lookups)
  {
    hide OnQueryIndex;
  }

  lemma BlockArrives(h: Hasher, s: State, m: nat, text: string)
    requires m in s.miners && (m, text) in s.lookups
    ensures var n := Next(h, s, BlockReply(m, text)); m in n.miners && n.miners[m] == OnBlockReply(h, s.miners[m], text)
  {
    hide OnBlockReply;
  }

  /** The view is the end of the chain c now, or as before if the last block cannot be printed. */
  predicate Resynced(h: Hasher, c: seq<Block>, before: MinerState, after: MinerState)
    requires c != []
  {
    var tip := c[|c| - 1];
    && after.pool == before.pool
    && after.next == (if Printable(tip) then |c| else before.next)
    && after.previous == (if Printable(tip) then HashOf(h, tip) else before.previous)
  }

  /** A miner asks for node 0's height, later gets the answer and asks for the last block, and later
      still gets that: its view is then the end of the chain at the time of the first question, or
      unchanged by it if that block cannot be printed. An empty chain resets the view. */
  lemma Resync(h: Hasher, initial: seq<Block>, before: seq<Step>, m: nat, first: seq<Step>, second: seq<Step>)
    requires GoodChain(h, initial)
    ensures var s := Run(h, Init(initial), before);
            var n := |s.chain|;
            var t := Run(h, Next(h, s, AskHeight(m)), first);
            var u := Run(h, Next(h, t, HeightReply(m, n)), second);
            m in s.miners ==>
              && m in t.miners && m in Next(h, t, HeightReply(m, n)).miners && m in u.miners
              && (n == 0 ==> Next(h, t, HeightReply(m, n)).miners[m] == MinerState(0, ZEROS, t.miners[m].pool))
              && (n > 0 ==>
                    var e := Next(h, u, BlockReply(m, OnQueryIndex(t.chain, n - 1)));
                    m in e.miners && Resynced(h, s.chain, u.miners[m], e.miners[m]))
  {
    hide Run, Inv, GoodChain, Next, OnQueryIndex, Printable, HashOf, OnBlockReply;
    InitInv(h, initial);
    RunKeeps(h, Init(initial), before);
    var s := Run(h, Init(initial), before);
    var n := |s.chain|;
    if m in s.miners {
      var asked := Next(h, s, AskHeight(m));
      AskedHeight(h, s, m);
      NextKeeps(h, s, AskHeight(m));
      NextGrows(h, s, AskHeight(m));
      RunKeeps(h, asked, first);
      RunGrows(h, asked, first);
      var t := Run(h, asked, first);
      HeightArrives(h, t, m, n);
      var answered := Next(h, t, HeightReply(m, n));
      RunGrows(h, answered, second);
      var u := Run(h, answered, second);
      if n > 0 {
        BlockArrives(h, u, m, OnQueryIndex(t.chain, n - 1));
        InvIsGood(h, t);
        ResyncView(h, t.chain, u.miners[m], n - 1);
      }
    }
  }

  lemma InvIsGood(h: Hasher, s: State)
    requires Inv(h, s)
    ensures GoodChain(h, s.chain)
  {
    hide GoodChain, CommitsOk, RepliesOk, MinersInv, DecisionsOk;
  }

  // ---- a submission over runs ----

  lemma SubmitArrives(h: Hasher, s: State, m: nat, payload: string)
    requires m in s.miners
    ensures var n := Next(h, s, Submit(m, payload)); m in n.miners && n.miners[m] == OnSubmit(s.miners[m], payload).1
  {
    hide OnSubmit;
  }

  /** A submission that the miner confirmed is pending over any run until a commit holds its text. */
  lemma SubmittedPends(h: Hasher, s: State, m: nat, payload: string, steps: seq<Step>)
    requires m in s.miners && OnSubmit(s.miners[m], payload).0.Pass?
    requires forall i :: 0 <= i < |steps| ==> !Commits(steps[i], m, FirstChars(payload))
    ensures var e := Run(h, Next(h, s, Submit(m, payload)), steps);
            m in e.miners && FirstChars(payload) in e.miners[m].pool
  {
    hide Run, Next, OnSubmit, Commits, ValidTx, FirstChars;
    var t, n := FirstChars(payload), Next(h, s, Submit(m, payload));
    SubmitArrives(h, s, m, payload);
    SubmitExact(s.miners[m], payload);
    assert n.miners[m].pool[|s.miners[m].pool|] == t;
    assert multiset(n.miners[m].pool)[t] >= 1;
    PendingStays(h, n, steps, m, t);
  }

  /** What a candidate carries: the view that was read, and the front of the pool. */
  lemma MinedCarries(h: Hasher, s: State, u: State, m: nat, timestamp: U64, nonce: U64)
    requires m in s.miners && m in u.miners
    ensures var b, pool := Mined(h, s, u, m, timestamp, nonce), u.miners[m].pool;
            && b.index == s.miners[m].next && b.previousHash == s.miners[m].previous
            && b.timestamp == timestamp && b.nonce == nonce
            && b.transactions <= pool && |b.transactions| == Min(MAX_TRANSACTIONS, |pool|)
            && (pool != [] ==> b.merkleRoot == Reduce(h, HashEach(h, b.transactions)))
  {
    hide MerkleRoot, Reduce, HashEach;
    BatchIsFront(u.miners[m].pool);
    if u.miners[m].pool != [] { RootIsReduced(h, Batch(u.miners[m].pool)); }
  }
}
