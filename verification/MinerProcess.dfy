/** The miner (miner/miner.c): its view of the chain tip, its pool, and the candidate blocks it
    builds from them. */
module MinerProcess {
  import opened Text
  import opened Hex
  import opened Blocks
  import opened Merkle
  import opened Hashing
  import opened Validation
  import opened ChainFile
  import opened Mempool
  import opened Candidates
  import opened NodeHandlers
  import CsvCodec

  datatype MinerState = MinerState(next: U64, previous: string, pool: seq<string>)

  const START := MinerState(0, ZEROS, [])

  // ---- handlers ----

  /** handle_block_commit: the included transactions leave the pool in any case; the view moves
      unless the block is older than it. */
  function OnBlockCommit(h: Hasher, m: MinerState, payload: string): MinerState {
    match FromCsv(payload)
    case Err(_) => m
    case Ok(b) =>
      if BlockHash(h, b).Err? then m
      else
        var pool := RemoveIncluded(m.pool, b.transactions);
        if b.index >= m.next then MinerState(Inc(b.index), HashOf(h, b), pool) else m.(pool := pool)
  }

  /** The commit is of a block that the view does not have yet. */
  predicate Moves(next: U64, payload: string) { FromCsv(payload).Ok? && next <= FromCsv(payload).value.index }

  lemma ParsedHashable(payload: string)
    requires FromCsv(payload).Ok?
    ensures Hashable(FromCsv(payload).value)
  {
    hide FromCsv, Storable, Shaped;
    ParserYieldsShape(payload);
  }

  /** The transaction buffer holds 255 characters: a longer payload is cut before validation. */
  function Truncate(payload: string): string {
    if |payload| < MAX_TRANSACTION_LENGTH - 1 then payload else payload[..MAX_TRANSACTION_LENGTH - 1]
  }

  /** handle_tx_submit. */
  function OnSubmit(m: MinerState, payload: string): (Verdict, MinerState) {
    if !ValidTx(Truncate(payload)) then (Fail(InvalidTransaction), m)
    else match AddTx(m.pool, Truncate(payload))
      case Err(e) => (Fail(e), m)
      case Ok(pool) => (Pass, m.(pool := pool))
  }

  /** The two ends of resync_from_node: an empty chain resets the view, a block reply replaces
      it whatever it was. */
  function OnEmptyChain(m: MinerState): MinerState { MinerState(0, ZEROS, m.pool) }

  function OnBlockReply(h: Hasher, m: MinerState, payload: string): MinerState {
    match FromCsv(payload)
    case Err(_) => m
    case Ok(b) =>
      if BlockHash(h, b).Err? then m else MinerState(Inc(b.index), HashOf(h, b), m.pool)
  }

  function Batch(pool: seq<string>): seq<string> {
    if |pool| <= MAX_TRANSACTIONS then pool else pool[..MAX_TRANSACTIONS]
  }

  // ---- the class ----

  class Miner {
    var nextIndex: U64
    var previousHash: string
    var restartMining: bool
    const pool: Pool

    ghost predicate Valid()
      reads this, pool
    {
      pool.Valid()
    }

    function View(): MinerState
      requires Valid()
      reads this, pool, pool.slots
    {
      MinerState(nextIndex, previousHash, pool.View())
    }

    constructor ()
      ensures Valid() && View() == START && fresh(pool) && fresh(pool.slots)
    {
      var empty := new Pool();
      pool := empty;
      nextIndex, previousHash, restartMining := 0, ZEROS, false;
    }

    method HandleCommit(h: Hasher, payload: string)
      requires Valid()
      modifies this, pool, pool.slots
      ensures Valid() && View() == OnBlockCommit(h, old(View()), payload)
      ensures restartMining <==> old(restartMining) || Moves(old(nextIndex), payload)
      ensures !Moves(old(nextIndex), payload) ==> nextIndex == old(nextIndex) && previousHash == old(previousHash)
    {
      hide FromCsv, CsvLine, RemoveFrom, ParserShaped, HashInput, LineSpells;
      if payload == "" {
        EmptyPayload();
        return;
      }
      var parsed := CsvCodec.ParseBlock(payload);
      if parsed.Err? { return; }
      var b := parsed.value;
      ParsedHashable(payload);
      var hash := CalculateBlockHash(h, b);
      if hash.Err? { return; }
      pool.Remove(b.transactions);
      if b.index >= nextIndex {
        nextIndex, previousHash, restartMining := Inc(b.index), hash.value, true;
      }
    }

    method HandleSubmit(payload: string) returns (v: Verdict)
      requires Valid()
      modifies pool, pool.slots
      ensures Valid() && (v, View()) == OnSubmit(old(View()), payload)
      ensures v.Pass? <==> ValidTx(FirstChars(payload)) && |old(pool.View())| < CAPACITY
      ensures pool.View() == old(pool.View()) + if v.Pass? then [FirstChars(payload)] else []
    {
      hide Matches;
      SubmitExact(View(), payload);
      var t := Truncate(payload);
      v := ValidateTransaction(t);
      if v.Fail? { return; }
      v := pool.Add(t);
    }

    /** resync_from_node when the height is 0. */
    method ResyncEmpty()
      requires Valid()
      modifies this
      ensures Valid() && View() == OnEmptyChain(old(View())) && restartMining
    {
      nextIndex, previousHash, restartMining := 0, ZEROS, true;
    }

    /** resync_from_node once the answer to the block query is there. */
    method ResyncBlock(h: Hasher, payload: string)
      requires Valid()
      modifies this
      ensures Valid() && View() == OnBlockReply(h, old(View()), payload)
      ensures restartMining <==> old(restartMining) || FromCsv(payload).Ok?
    {
      hide FromCsv, CsvLine, ParserShaped, HashInput, LineSpells;
      var parsed := CsvCodec.ParseBlock(payload);
      if parsed.Err? { return; }
      ParsedHashable(payload);
      var hash := CalculateBlockHash(h, parsed.value);
      if hash.Err? { return; }
      nextIndex, previousHash, restartMining := Inc(parsed.value.index), hash.value, true;
    }

    /** One turn of mining_thread_main up to the finished candidate; none on an empty pool. */
    method BuildCandidate(h: Hasher, timestamp: U64, nonce: U64) returns (r: Option<Block>)
      requires Valid()
      modifies this`restartMining
      ensures Valid() && !restartMining && View() == old(View())
      ensures r.Some? ==> r.value.transactions <= pool.View()
      ensures r.Some? ==> |r.value.transactions| == Min(MAX_TRANSACTIONS, |pool.View()|)
      ensures var batch := Batch(pool.View());
              r == if batch == [] || !Storable(batch) then None
                   else Some(Candidate(h, nextIndex, previousHash, timestamp, nonce, batch))
    {
      hide MerkleRoot;
      BatchIsFront(pool.View());
      restartMining := false;
      var batch := pool.Snapshot(MAX_TRANSACTIONS);
      if |batch| == 0 { return None; }
      var candidate := Block(nextIndex, timestamp, previousHash, "", nonce, []);
      for i := 0 to |batch|
        invariant candidate == Block(nextIndex, timestamp, previousHash, "", nonce, batch[..i])
        invariant forall j :: 0 <= j < i ==> StorableTx(batch[j])
      {
        var added := AddTransaction(candidate, batch[i]);
        assert batch[i] in batch && batch[..i] + [batch[i]] == batch[..i + 1];
        if added.Err? { return None; }
        candidate := added.value;
      }
      assert batch[..|batch|] == batch;
      var root, _ := CalculateMerkleRoot(h, candidate.transactions);
      if root.Err? { return None; }
      r := Some(candidate.(merkleRoot := root.value));
    }
  }

  // ---- one message ----

  function Min(a: nat, b: nat): nat { if a < b then a else b }

  /** What fits the transaction buffer. */
  function FirstChars(payload: string): string { payload[..Min(MAX_TRANSACTION_LENGTH - 1, |payload|)] }

  /** A submission passes exactly if the text that fits the buffer is valid and the pool has room;
      then it is stored behind the others, and otherwise nothing changes. */
  lemma SubmitExact(m: MinerState, payload: string)
    ensures var r, t := OnSubmit(m, payload), FirstChars(payload);
            && (r.0.Pass? <==> ValidTx(t) && |m.pool| < CAPACITY)
            && r.1 == (if r.0.Pass? then MinerState(m.next, m.previous, m.pool + [t]) else m)
            && (r.0 == Fail(InvalidTransaction) <==> !ValidTx(t))
            && (r.0 == Fail(InvalidBlock) <==> ValidTx(t) && |m.pool| >= CAPACITY)
  {
    hide Matches;
    assert Truncate(payload) == FirstChars(payload);
  }

  /** A commit of node 0's block j moves the view to the later of what it was and the block behind
      j, and takes out of the pool every copy of the block's transactions and nothing else. */
  lemma CommitView(h: Hasher, c: seq<Block>, m: MinerState, j: nat)
    requires GoodChain(h, c) && j < |c| && Printable(c[j])
    ensures var r := OnBlockCommit(h, m, CsvLine(c[j]));
            && r.next == Max(m.next, j + 1)
            && r.previous == (if m.next <= j then HashOf(h, c[j]) else m.previous)
            && forall t :: multiset(r.pool)[t] == Left(m.pool, c[j].transactions, t)
  {
    hide GoodChain, FromCsv, CsvLine, Printable, HashInput, RemoveFrom, Left;
    GoodSize(h, c);
    GoodBlock(h, c, j);
    forall t ensures multiset(RemoveIncluded(m.pool, c[j].transactions))[t] == Left(m.pool, c[j].transactions, t) {
      RemoveIncludedCounts(m.pool, c[j].transactions, t);
    }
  }

  /** Whatever the payload, a commit below the view leaves the view alone. */
  lemma OldCommitStays(h: Hasher, m: MinerState, payload: string)
    requires !Moves(m.next, payload)
    ensures OnBlockCommit(h, m, payload).next == m.next && OnBlockCommit(h, m, payload).previous == m.previous
  {
    hide FromCsv, RemoveFrom, HashOf;
  }

  /** The reply to a query for block i of node 0's chain sets the view behind that block, whatever it
      was, and a block that cannot be printed leaves it alone. */
  lemma ResyncView(h: Hasher, c: seq<Block>, m: MinerState, i: nat)
    requires GoodChain(h, c) && i < |c|
    ensures OnBlockReply(h, m, OnQueryIndex(c, i)) ==
            if Printable(c[i]) then MinerState(i + 1, HashOf(h, c[i]), m.pool) else m
  {
    hide GoodChain, FromCsv, Printable, HashInput, OnQueryIndex;
    GoodSize(h, c);
    QueryExact(h, c, i);
    GoodBlock(h, c, i);
  }

  /** The batch is the front of the pool: all of it up to sixteen entries. */
  lemma BatchIsFront(pool: seq<string>)
    ensures Batch(pool) <= pool && |Batch(pool)| == Min(MAX_TRANSACTIONS, |pool|)
  {
  }

  // ---- end to end ----

  /** The view (next, previous) points at the end of the first `next` blocks of `c`. */
  predicate ViewOf(h: Hasher, c: seq<Block>, next: nat, previous: string) {
    next <= |c| && previous == if next == 0 then ZEROS else HashOf(h, c[next - 1])
  }

  /** A candidate built from a view of node 0's chain is printed, read back unchanged, and
      appended exactly when the view is current and the clock has not gone back; a candidate
      from any older view is rejected. */
  lemma CandidateExact(h: Hasher, c: seq<Block>, next: U64, previous: string,
                       timestamp: U64, nonce: U64, batch: seq<string>)
    requires GoodChain(h, c) && |c| < MAX_BLOCKS && ViewOf(h, c, next, previous) && GoodBatch(batch)
    ensures var b := Candidate(h, next, previous, timestamp, nonce, batch);
            OnProposal(h, c, CsvLine(b)) ==
            if next == |c| && (c != [] ==> c[|c| - 1].timestamp <= timestamp)
            then Handled(c + [b], Accepted, Some(CsvLine(b)))
            else Handled(c, Invalid, None)
  {
    hide ValidBlock, Printable, ParserShaped, CsvLine, FromCsv, ValidChain, HashInput, MerkleRoot, Matches;
    var b := Candidate(h, next, previous, timestamp, nonce, batch);
    assert IsHash(previous);
    CandidateValid(h, next, previous, timestamp, nonce, batch);
    PrintedLine(b);
    AppendExact(c, b);
    BatchStorable(batch);
    if c != [] { GoodBlock(h, c, |c| - 1); }
  }

  lemma BatchStorable(batch: seq<string>)
    requires GoodBatch(batch)
    ensures Storable(batch)
  {
    hide Matches;
  }
}
