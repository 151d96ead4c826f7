/** Loaded files from which a commit can be accepted at the wrong height, and nothing else can make
    a follower that started from a file disagree. */
module WrongCommits {
  import opened Text
  import opened Blocks
  import opened Validation
  import opened ChainFile
  import opened NodeHandlers
  import opened Protocol
  import opened LoadedRuns
  import opened Divergence

  // ---- node 0 and a follower that fetches ----

  lemma BlockHashes(h: Hasher, b: Block)
    requires ValidBlock(h, b)
    ensures IsHash(b.previousHash) && IsHash(b.merkleRoot)
  {
  }

  /** Node 0 takes the next block: only the last one matters to its checks. */
  lemma ProposeAt(h: Hasher, lo: nat, shift: int, c: seq<Block>, i: nat)
    requires Grown(h, lo, shift, c) && 0 < lo <= i < |c|
    ensures OnProposal(h, c[..i], CsvLine(c[i])) == Handled(c[..i + 1], Accepted, Some(CsvLine(c[i])))
  {
    hide Grown, Printable, CsvLine, FromCsv, ParserShaped, ValidBlock, ValidLink, Storable, AppendBlock;
    GrownIndex(h, lo, shift, c, |c|);
    GrownBlock(h, lo, shift, c, i);
    BlockHashes(h, c[i]);
    NotEmptyLine(c[i]);
    AppendExact(c[..i], c[i]);
    assert c[..i + 1] == c[..i] + [c[i]];
  }

  /** Node 0 holds c[..i], follower 0 the first k blocks, and all commits are in the network. */
  predicate Leading(s: State, c: seq<Block>, lo: nat, k: nat, i: nat)
    requires k <= i <= |c|
  {
    && s.chain == c[..i] && 0 in s.followers && s.followers[0] == c[..k]
    && forall j :: lo <= j < i ==> CsvLine(c[j]) in s.commits
  }

  lemma LeadOne(h: Hasher, s: State, lo: nat, shift: int, c: seq<Block>, k: nat, i: nat)
    requires Grown(h, lo, shift, c) && 0 < lo <= k <= i < |c| && Leading(s, c, lo, k, i)
    ensures Leading(Next(h, s, Propose(CsvLine(c[i]))), c, lo, k, i + 1)
  {
    hide Grown, CsvLine, OnProposal;
    ProposeAt(h, lo, shift, c, i);
  }

  /** Node 0 goes on alone to its first n blocks. */
  lemma {:induction false} LeadTo(h: Hasher, s: State, lo: nat, shift: int, c: seq<Block>, k: nat, i: nat, n: nat)
    requires Grown(h, lo, shift, c) && 0 < lo <= k <= i <= n <= |c| && Leading(s, c, lo, k, i)
    ensures Leading(Run(h, s, Proposals(c[i..n])), c, lo, k, n)
    decreases n - i
  {
    hide Grown, Next, Leading;
    if i < n {
      var step, rest := Propose(CsvLine(c[i])), Proposals(c[i + 1..n]);
      assert c[i..n][0] == c[i] && c[i..n][1..] == c[i + 1..n] && Proposals(c[i..n]) == [step] + rest;
      LeadOne(h, s, lo, shift, c, k, i);
      RunCons(h, s, step, rest);
      LeadTo(h, Next(h, s, step), lo, shift, c, k, i + 1, n);
    } else {
      assert c[i..n] == [];
      RunNone(h, s);
    }
  }

  /** The last of the first k commits finds the follower behind at height g. */
  lemma CommitFinds(h: Hasher, lo: nat, shift: int, c: seq<Block>, g: nat, k: nat)
    requires Grown(h, lo, shift, c) && 0 < lo <= g < k <= |c| && g < k - 1 - shift
    ensures OnCommit(h, c[..g], CsvLine(c[k - 1])) == (Behind(g), c[..g])
  {
    hide Grown, Printable, CsvLine, FromCsv, ParserShaped, ValidBlock, ValidLink, Storable, AppendBlock, FindIndex;
    GrownBlock(h, lo, shift, c, k - 1);
  }

  /** Follower 0 fetches node 0's first k blocks. */
  function Fetch(c: seq<Block>, g: nat, k: nat): seq<Step>
    requires 0 < k <= |c|
  {
    [DeliverCommit(0, CsvLine(c[k - 1]))] + ([ServeSync(0, g)] + ([ApplySync(0, SyncText(c[..k], g))] + []))
  }

  lemma FetchRun(h: Hasher, s: State, lo: nat, shift: int, c: seq<Block>, g: nat, k: nat)
    requires Grown(h, lo, shift, c) && 0 < lo <= g < k <= |c| && Hop(shift, c, g, k) && Leading(s, c, lo, g, k)
    ensures Leading(Run(h, s, Fetch(c, g, k)), c, lo, k, k)
  {
    hide Grown, OnCommit, OnSyncReply, CsvLine, SyncText, Run;
    var line, text := CsvLine(c[k - 1]), SyncText(c[..k], g);
    CommitFinds(h, lo, shift, c, g, k);
    SyncAtLast(h, lo, shift, c, c[..g], g, k, g);
    assert c[..g] + c[g..k] == c[..k];
    var s1 := Next(h, s, DeliverCommit(0, line));
    assert (0, g) in s1.requests && s1.followers[0] == c[..g];
    var s2 := Next(h, s1, ServeSync(0, g));
    assert (0, text) in s2.replies;
    ThreeSteps(h, s, DeliverCommit(0, line), ServeSync(0, g), ApplySync(0, text));
  }

  lemma ThreeSteps(h: Hasher, s: State, p: Step, q: Step, r: Step)
    ensures Run(h, s, [p] + ([q] + ([r] + []))) == Next(h, Next(h, Next(h, s, p), q), r)
  {
    hide Next, Run;
    var s1 := Next(h, s, p);
    var s2 := Next(h, s1, q);
    RunCons(h, s, p, [q] + ([r] + []));
    RunCons(h, s1, q, [r] + []);
    RunCons(h, s2, r, []);
    RunNone(h, Next(h, s2, r));
  }

  /** Every stop is reached. */
  lemma {:induction false} StopReached(h: Hasher, s: State, lo: nat, shift: int, c: seq<Block>, k: nat)
    requires Grown(h, lo, shift, c) && 0 < lo <= k <= |c| && shift != 0 && Stop(lo, shift, c, k)
    requires Leading(s, c, lo, lo, lo)
    ensures exists steps :: Leading(Run(h, s, steps), c, lo, k, k)
    decreases k
  {
    hide Grown, Run, Fetch, Hop, Leading, Proposals;
    if k == lo {
      RunNone(h, s);
      assert Leading(Run(h, s, []), c, lo, k, k);
    } else {
      var g :| lo <= g < k && Stop(lo, shift, c, g) && Hop(shift, c, g, k);
      StopReached(h, s, lo, shift, c, g);
      var steps :| Leading(Run(h, s, steps), c, lo, g, g);
      var s1 := Run(h, s, steps);
      LeadTo(h, s1, lo, shift, c, g, g, k);
      var s2 := Run(h, s1, Proposals(c[g..k]));
      FetchRun(h, s2, lo, shift, c, g, k);
      RunConcat(h, s1, Proposals(c[g..k]), Fetch(c, g, k));
      RunConcat(h, s, steps, Proposals(c[g..k]) + Fetch(c, g, k));
      assert Leading(Run(h, s, steps + (Proposals(c[g..k]) + Fetch(c, g, k))), c, lo, k, k);
    }
  }

  // ---- the wrong commit ----

  lemma StartLeading(h: Hasher, c: seq<Block>, lo: nat)
    requires lo <= |c|
    ensures Leading(Next(h, Init(c[..lo]), StartNode(0)), c, lo, lo, lo)
  {
    hide CsvLine;
  }

  lemma WrongStep(h: Hasher, s: State, lo: nat, shift: int, c: seq<Block>, j: nat, k: nat)
    requires Grown(h, lo, shift, c) && 0 < lo <= k <= |c| && lo <= j && WrongAt(h, c, j, k)
    requires Leading(s, c, lo, k, |c|)
    ensures var e := Next(h, s, DeliverCommit(0, CsvLine(c[j])));
            e.chain == c && 0 in e.followers && e.followers[0] == c[..k] + [c[j]]
  {
    hide Grown, OnCommit, CsvLine, ValidLink, FindIndex;
    CommitGoesWrong(h, lo, shift, c, k, j);
  }

  lemma NotOnLine(h: Hasher, lo: nat, shift: int, c: seq<Block>, j: nat, k: nat)
    requires Grown(h, lo, shift, c) && lo <= k && lo <= j && WrongAt(h, c, j, k)
    ensures !(c[..k] + [c[j]] <= c)
  {
    hide AllParserShaped, ValidBlock, ValidLink, FindIndex;
    var d := c[..k] + [c[j]];
    assert d[k] == c[j] && |d| == k + 1;
    assert GrownAt(h, shift, c, j);
    if k < |c| { assert GrownAt(h, shift, c, k); }
  }

  lemma WrongShift(h: Hasher, initial: seq<Block>, c: seq<Block>, j: int, k: int)
    requires initial != [] && Built(h, initial, c) && |initial| <= j && |initial| <= k && WrongAt(h, c, j, k)
    ensures Shift(initial) != 0 && j < |c| && k <= |c|
  {
    hide AllParserShaped, ValidBlock, ValidLink, FindIndex;
    assert GrownAt(h, Shift(initial), c, j);
  }

  /** A commit that can be accepted at a wrong height that a follower can be at is: follower 0 gets to
      that height, node 0 to the end of c, and the commit arrives. */
  lemma WrongRun(h: Hasher, initial: seq<Block>, c: seq<Block>, j: nat, k: nat)
    requires initial != [] && Built(h, initial, c) && |initial| <= j && |initial| <= k <= |c|
    requires WrongHere(h, initial, c, j, k)
    ensures exists steps :: Run(h, Init(initial), steps).chain == c && Disagree(Run(h, Init(initial), steps))
  {
    hide Grown, Run, Next, Stop, Proposals, WrongAt, Leading;
    WrongShift(h, initial, c, j, k);
    var lo, shift, rest := |initial|, Shift(initial), Proposals(c[k..|c|]);
    var start, wrong := StartNode(0), DeliverCommit(0, CsvLine(c[j]));
    assert c[..lo] == initial;
    StartLeading(h, c, lo);
    var s1 := Next(h, Init(initial), start);
    StopReached(h, s1, lo, shift, c, k);
    var steps :| Leading(Run(h, s1, steps), c, lo, k, k);
    var s2 := Run(h, s1, steps);
    LeadTo(h, s2, lo, shift, c, k, k, |c|);
    var s3 := Run(h, s2, rest);
    WrongStep(h, s3, lo, shift, c, j, k);
    NotOnLine(h, lo, shift, c, j, k);
    RunOne(h, s3, wrong);
    RunConcat(h, s2, rest, [wrong]);
    RunConcat(h, s1, steps, rest + [wrong]);
    RunCons(h, Init(initial), start, steps + (rest + [wrong]));
    var e := Run(h, Init(initial), [start] + (steps + (rest + [wrong])));
    assert e.chain == c && Disagree(e);
  }

  // ---- exactly when agreement can fail ----

  /** The chain in question is one that node 0 can hold, and a message can lead a follower astray. */
  predicate Astray(h: Hasher, initial: seq<Block>, c: seq<Block>) {
    if initial == [] then GoodChain(h, c) && |c| >= 2 && !Printable(c[0])
    else Built(h, initial, c) && Wrong(h, initial, c)
  }

  lemma ReachedIsBuilt(h: Hasher, initial: seq<Block>, steps: seq<Step>)
    requires Startable(initial) && initial != [] && NoWrap(initial, Run(h, Init(initial), steps).chain)
    ensures Built(h, initial, Run(h, Init(initial), steps).chain)
  {
    hide Run, Built, NewCommits, Course, Startable, Wrong, NoWrap;
    SameInitial(h, Init(initial), steps);
    InitLoaded(h, initial);
    RunLoaded(h, Init(initial), steps);
  }

  /** Without Astray no run that reaches c makes a follower disagree, from whatever start. */
  lemma NeverAstray(h: Hasher, initial: seq<Block>, c: seq<Block>, steps: seq<Step>)
    requires Startable(initial) && !Astray(h, initial, c) && Run(h, Init(initial), steps).chain == c
    requires initial != [] ==> NoWrap(initial, c)
    ensures !Disagree(Run(h, Init(initial), steps))
  {
    hide GoodChain, Printable, Run, Startable, Built, Wrong, NoWrap;
    if initial == [] { ReachedIsGood(h, steps); } else { ReachedIsBuilt(h, initial, steps); }
    Agreement(h, initial, steps);
  }

  lemma WrongReached(h: Hasher, initial: seq<Block>, c: seq<Block>)
    requires initial != [] && Built(h, initial, c) && Wrong(h, initial, c)
    ensures exists steps :: Run(h, Init(initial), steps).chain == c && Disagree(Run(h, Init(initial), steps))
  {
    hide Built, Run, WrongHere, Disagree;
    var j, k :| |initial| <= j < |c| && |initial| <= k <= |c| && WrongHere(h, initial, c, j, k);
    WrongRun(h, initial, c, j, k);
  }

  /** For every start, no file or any file that loads, and every chain c: some run in which node 0
      reaches c leaves a follower in disagreement exactly when c is Astray. */
  lemma AgreementExact(h: Hasher, initial: seq<Block>, c: seq<Block>)
    requires Startable(initial) && (initial != [] ==> NoWrap(initial, c))
    ensures (exists steps :: Run(h, Init(initial), steps).chain == c && Disagree(Run(h, Init(initial), steps)))
            <==> Astray(h, initial, c)
  {
    hide GoodChain, Printable, Run, Startable, Built, Wrong, NoWrap, Disagree;
    if !Astray(h, initial, c) {
      forall steps | Run(h, Init(initial), steps).chain == c ensures !Disagree(Run(h, Init(initial), steps)) {
        NeverAstray(h, initial, c, steps);
      }
    } else if initial == [] {
      DisagreementReached(h, c);
    } else {
      WrongReached(h, initial, c);
    }
  }

  // ---- a stretch of a valid chain ----

  lemma SliceBuilt(h: Hasher, c: seq<Block>, a: nat, b: nat)
    requires GoodChain(h, c) && a < b <= |c|
    ensures Startable(c[a..b]) && Built(h, c[a..b], c[a..]) && Shift(c[a..b]) + a == 0 && NoWrap(c[a..b], c[a..])
  {
    hide ValidChain, ParserShaped, ValidBlock, ValidLink, CsvLine, FromCsv, Printable, Storable;
    var d, shift := c[a..], Shift(c[a..b]);
    GoodBlock(h, c, b - 1);
    assert forall x :: x in d ==> x in c;
    assert forall x :: x in c[a..b] ==> x in c;
    forall i | b - a <= i < |d| ensures GrownAt(h, shift, d, i) {
      GoodBlock(h, c, a + i);
      if i > 0 { GoodLink(h, c, a + i); }
    }
  }

  lemma SliceWrong(h: Hasher, c: seq<Block>, a: nat, b: nat)
    requires GoodChain(h, c) && a < b <= |c| && Shift(c[a..b]) + a == 0
    ensures Wrong(h, c[a..b], c[a..]) <==> a > 0 && a + b <= |c|
  {
    hide GoodChain, ParserShaped, ValidBlock, ValidLink, CsvLine, FromCsv, Printable, Storable, FindIndex, Stop;
    var d, lo, shift := c[a..], b - a, Shift(c[a..b]);
    GoodSize(h, c);
    forall i | 0 <= i < |d| ensures d[i].index == a + i { GoodBlock(h, c, a + i); }
    if a > 0 && a + b <= |c| {
      FindIndexFirst(d[..b], b - 1, b - 1 - a);
      GoodLink(h, c, b);
      AheadStops(lo, shift, d, b);
      assert d[lo] == c[b];
      assert WrongHere(h, c[a..b], d, lo, b);
    }
  }

  /** A file that holds a stretch c[a..b] of a valid chain: some run from it in which node 0 reaches
      the rest of the chain leaves a follower in disagreement, exactly when the stretch lacks the
      first a > 0 blocks and at least a further ones follow it. */
  lemma CutExact(h: Hasher, c: seq<Block>, a: nat, b: nat)
    requires GoodChain(h, c) && a < b <= |c|
    ensures (exists steps :: Run(h, Init(c[a..b]), steps).chain == c[a..] && Disagree(Run(h, Init(c[a..b]), steps)))
            <==> a > 0 && a + b <= |c|
  {
    hide GoodChain, Run, Startable, Built, Wrong, NoWrap, Disagree, Shift;
    SliceBuilt(h, c, a, b);
    SliceWrong(h, c, a, b);
    assert c[a..b] != [] && |c[a..b]| == b - a;
    AgreementExact(h, c[a..b], c[a..]);
  }

  // ---- a stray block ----

  /** The blocks of a valid chain in the wrong order: the commit of block 3 finds the stray block 2
      and is appended at once, while node 0 put another block 2 before it. */
  lemma StrayFile(h: Hasher, c: seq<Block>)
    requires GoodChain(h, c) && |c| == 4
    ensures var file := [c[0], c[2], c[1]];
            && Startable(file)
            && exists steps :: Run(h, Init(file), steps).chain == [c[0], c[2], c[1], c[2], c[3]]
                            && Disagree(Run(h, Init(file), steps))
  {
    hide ValidChain, ParserShaped, ValidBlock, ValidLink, CsvLine, FromCsv, Printable, Storable, FindIndex, Run;
    hide Disagree;
    var file, d := [c[0], c[2], c[1]], [c[0], c[2], c[1], c[2], c[3]];
    forall i | 0 <= i < 4 ensures c[i].index == i && c[i] in c { GoodBlock(h, c, i); }
    GoodBlock(h, c, 2);
    GoodBlock(h, c, 3);
    GoodLink(h, c, 2);
    GoodLink(h, c, 3);
    assert GrownAt(h, 1, d, 3) && GrownAt(h, 1, d, 4);
    assert d[..3] == file;
    FindIndexFirst(d[..3], 2, 1);
    assert WrongHere(h, file, d, 4, 3);
    WrongRun(h, file, d, 4, 3);
  }
}
