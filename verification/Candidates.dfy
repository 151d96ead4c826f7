/** Blocks as the mining thread builds them (miner/miner.c), and sample transactions. */
module Candidates {
  import opened Text
  import opened Hex
  import opened Blocks
  import opened Merkle
  import opened Validation

  /** The candidate of mining_thread_main for a view and a batch of transactions. */
  function Candidate(h: Hasher, next: U64, previous: string, timestamp: U64, nonce: U64, batch: seq<string>): Block {
    Block(next, timestamp, previous, MerkleRoot(h, batch), nonce, batch)
  }

  predicate GoodBatch(batch: seq<string>) { 0 < |batch| <= MAX_TRANSACTIONS && AllValidTx(batch) }

  const SAMPLE_TX := Spell("a", "b", "1")

  lemma SampleTx()
    ensures ValidTx(SAMPLE_TX) && GoodBatch([SAMPLE_TX])
  {
    hide Matches;
    SpellMatches("a", "b", "1");
  }

  lemma CandidateValid(h: Hasher, next: U64, previous: string, timestamp: U64, nonce: U64, batch: seq<string>)
    requires IsHash(previous) && GoodBatch(batch)
    ensures var b := Candidate(h, next, previous, timestamp, nonce, batch);
            ValidBlock(h, b) && Printable(b) && ParserShaped(b) && FromCsv(CsvLine(b)) == Ok(b)
  {
    hide Matches, MerkleRoot, CsvLine, FromCsv, NoSep;
    var b := Candidate(h, next, previous, timestamp, nonce, batch);
    forall t | t in batch ensures PrintableTx(t) && !EndsInColon(t) { ValidTxShape(t); }
    assert IsHash(b.merkleRoot);
    ShapedRoundTrip(b);
  }

  // ---- transactions of the greatest length ----

  function Letters(n: nat): (s: string)
    ensures |s| == n && AllAlnum(s)
  {
    if n == 0 then "" else Letters(n - 1) + "a"
  }

  const LONG_TX := Spell(Letters(240), "b", "1")

  lemma LongTx()
    ensures ValidTx(LONG_TX) && |LONG_TX| == MAX_TRANSACTION_LENGTH - 1
  {
    hide Matches, Letters;
    SpellMatches(Letters(240), "b", "1");
  }

  function Copies(t: string, n: nat): (ts: seq<string>)
    ensures |ts| == n && forall s :: s in ts ==> s == t
  {
    if n == 0 then [] else [t] + Copies(t, n - 1)
  }

  lemma {:induction false} CopiesLength(t: string, n: nat)
    requires n > 0
    ensures JoinedLength(Copies(t, n)) == n * (|t| + 2) - 2
  {
    if n > 1 {
      CopiesLength(t, n - 1);
      assert Copies(t, n)[1..] == Copies(t, n - 1);
    }
  }

  const LONG_BATCH := Copies(LONG_TX, MAX_TRANSACTIONS)

  lemma LongBatch()
    ensures GoodBatch(LONG_BATCH) && JoinedLength(LONG_BATCH) == MAX_LINE - 183
  {
    hide ValidTx, Copies;
    LongTx();
    CopiesLength(LONG_TX, MAX_TRANSACTIONS);
  }
}
