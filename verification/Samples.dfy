/** Valid chains of any length and any batch, and the answers they are too long for. */
module Samples {
  import opened Text
  import opened Blocks
  import opened Hashing
  import opened Validation
  import opened ChainFile
  import opened NodeHandlers
  import opened Candidates

  /** The next candidate for the chain c, mined at the time of its last block. */
  function NextCandidate(h: Hasher, c: seq<Block>, batch: seq<string>): Block
    requires |c| <= MAX_BLOCKS
  {
    if c == [] then Candidate(h, 0, ZEROS, 0, 0, batch)
    else Candidate(h, |c|, HashOf(h, c[|c| - 1]), c[|c| - 1].timestamp, 0, batch)
  }

  /** Candidates with the same batch up to n blocks. */
  function Extended(h: Hasher, c: seq<Block>, n: nat, batch: seq<string>): seq<Block>
    requires |c| <= n <= MAX_BLOCKS
    decreases n - |c|
  {
    if |c| == n then c else Extended(h, c + [NextCandidate(h, c, batch)], n, batch)
  }

  lemma NextGood(h: Hasher, c: seq<Block>, batch: seq<string>)
    requires GoodChain(h, c) && |c| < MAX_BLOCKS && GoodBatch(batch)
    ensures GoodChain(h, c + [NextCandidate(h, c, batch)]) && Printable(NextCandidate(h, c, batch))
  {
    hide ValidBlock, Printable, ParserShaped, CsvLine, FromCsv, ValidChain, HashInput, GoodBatch, Acceptable;
    var b := NextCandidate(h, c, batch);
    CandidateValid(h, |c|, b.previousHash, b.timestamp, 0, batch);
    NextAcceptable(h, c, batch);
    IncrementalIsWhole(h, c, b);
  }

  lemma NextAcceptable(h: Hasher, c: seq<Block>, batch: seq<string>)
    requires GoodChain(h, c) && |c| < MAX_BLOCKS && GoodBatch(batch)
    ensures Acceptable(h, c, NextCandidate(h, c, batch))
  {
    hide ValidBlock, Printable, ParserShaped, CsvLine, FromCsv, ValidChain, HashInput, GoodBatch, Storable;
    var b := NextCandidate(h, c, batch);
    CandidateValid(h, |c|, b.previousHash, b.timestamp, 0, batch);
    if c != [] { GoodBlock(h, c, |c| - 1); }
  }

  lemma {:induction false} ExtendedGood(h: Hasher, c: seq<Block>, n: nat, batch: seq<string>)
    requires GoodChain(h, c) && |c| <= n <= MAX_BLOCKS && GoodBatch(batch)
    ensures var d := Extended(h, c, n, batch);
            && GoodChain(h, d) && |d| == n && c <= d
            && forall i :: |c| <= i < n ==> Printable(d[i]) && d[i].transactions == batch
    decreases n - |c|
  {
    hide GoodChain, GoodBatch, Printable;
    if |c| < n {
      var next := c + [NextCandidate(h, c, batch)];
      NextGood(h, c, batch);
      ExtendedGood(h, next, n, batch);
      assert next[|c|].transactions == batch;
    }
  }

  lemma GoodGenesis(h: Hasher, g: Block)
    requires ValidBlock(h, g) && ParserShaped(g) && g.index == 0
    ensures GoodChain(h, [g])
  {
    hide ValidBlock, ParserShaped;
  }

  // ---- answers that do not fit ----

  lemma {:induction false} LongLines(c: seq<Block>)
    requires forall b :: b in c ==> Printable(b) && b.transactions == LONG_BATCH
    ensures |Lines(CsvLines(c))| == |c| * (MAX_LINE + 1)
  {
    hide Printable, CsvLine;
    if c != [] {
      assert c[0] in c;
      LineLength(c[0]);
      LongBatch();
      var rest := CsvLines(c[1..]);
      assert CsvLines(c) == [CsvLine(c[0])] + rest;
      LinesCons(CsvLine(c[0]), rest);
      LongLines(c[1..]);
      MulSucc(|c| - 1, MAX_LINE + 1);
    }
  }

  /** Fifteen is the largest gap that always fits: at every height there is a valid chain with
      sixteen more blocks whose answer does not. */
  lemma SixteenMayNotFit(h: Hasher, from: nat)
    requires from + 16 <= MAX_BLOCKS
    ensures exists c :: GoodChain(h, c) && |c| == from + 16 && AllPrintable(c) && OnSyncRequest(c, from) == None
  {
    hide GoodChain, Extended, Printable, CsvLines, Lines, GoodBatch;
    LongBatch();
    EmptyIsGood(h);
    var c := Extended(h, [], from + 16, LONG_BATCH);
    ExtendedGood(h, [], from + 16, LONG_BATCH);
    LongLines(c[from..]);
    assert AllPrintable(c) && OnSyncRequest(c, from) == None;
  }

  lemma EmptyIsGood(h: Hasher)
    ensures GoodChain(h, [])
  {
  }

  lemma {:induction false} CsvLinesPrefix(a: seq<Block>, b: seq<Block>, c: seq<Block>)
    ensures |Lines(CsvLines(b))| <= |Lines(CsvLines(a + b + c))|
  {
    hide CsvLines, Lines;
    CsvLinesConcat(a + b, c);
    CsvLinesConcat(a, b);
    LinesConcat(CsvLines(a + b), CsvLines(c));
    LinesConcat(CsvLines(a), CsvLines(b));
  }

  /** A request that node 0 cannot answer stays unanswerable as its chain grows, and so does
      every earlier one. */
  lemma UnanswerableStays(c: seq<Block>, from: nat, c': seq<Block>, from': nat)
    requires OnSyncRequest(c, from) == None && c <= c' && from' <= from
    ensures OnSyncRequest(c', from') == None
  {
    hide CsvLines, Lines;
    if from > |c| {
      assert SyncText(c, from) == "" by { NoText(); }
    } else {
      CsvLinesPrefix(c'[from'..from], c[from..], c'[|c|..]);
      assert c'[from'..] == c'[from'..from] + c[from..] + c'[|c|..];
    }
  }
}
