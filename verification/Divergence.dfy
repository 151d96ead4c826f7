/** What happens when the nodes start empty and the genesis block cannot be printed, and that
    nothing else makes two nodes disagree. */
module Divergence {
  import opened Text
  import opened Blocks
  import opened Merkle
  import opened Validation
  import opened ChainFile
  import opened NodeHandlers
  import opened Candidates
  import opened Samples
  import opened Protocol
  import opened LoadedRuns

  /** The nodes started empty, and no message can carry node 0's genesis block. */
  predicate Lost(s: State) { s.initial == [] && s.chain != [] && !Printable(s.chain[0]) }

  // ---- the genesis block never arrives ----

  /** No follower holds it. */
  predicate GenesisMissing(s: State) {
    Lost(s) ==> forall f :: f in s.followers ==> !(s.chain[..1] <= s.followers[f])
  }

  /** Before node 0 has a block, no follower has one. */
  lemma NothingYet(h: Hasher, s: State)
    requires Inv(h, s) && s.chain == []
    ensures forall f :: f in s.followers ==> s.followers[f] == []
  {
    hide GoodChain, CommitsOk, RepliesOk, MinersInv, DecisionsOk, Printable;
  }

  lemma ProposeMissing(h: Hasher, s: State, payload: string)
    requires Inv(h, s) && GenesisMissing(s)
    ensures GenesisMissing(Next(h, s, Propose(payload)))
  {
    hide Inv, OnProposal, Printable;
    ProposeGrows(h, s, payload);
    if s.chain == [] { NothingYet(h, s); }
  }

  /** A commit of node 0 is never one of the genesis block here, and later ones find an empty
      follower behind. */
  lemma CommitMissing(h: Hasher, s: State, f: nat, line: string)
    requires Inv(h, s) && GenesisMissing(s)
    ensures GenesisMissing(Next(h, s, DeliverCommit(f, line)))
  {
    hide GoodChain, OnCommit, Printable, PrintedFrom, RepliesOk, MinersInv, DecisionsOk;
    if Lost(s) && f in s.followers && line in s.commits {
      var d := s.followers[f];
      CommitGrows(h, d, line);
      if d == [] { LostCommit(h, s.chain, line); }
    }
  }

  lemma LostCommit(h: Hasher, c: seq<Block>, line: string)
    requires GoodChain(h, c) && c != [] && !Printable(c[0]) && PrintedFrom(c, line)
    ensures OnCommit(h, [], line) == (Behind(0), [])
  {
    hide GoodChain, OnCommit, Printable, CsvLine;
    var j :| 0 <= j < |c| && Printable(c[j]) && line == CsvLine(c[j]);
    assert c[..0] == [];
    CommitAtPrefix(h, c, 0, j);
  }

  lemma SyncMissing(h: Hasher, s: State, f: nat, text: string)
    requires Inv(h, s) && GenesisMissing(s)
    ensures GenesisMissing(Next(h, s, ApplySync(f, text)))
  {
    hide GoodChain, OnSyncReply, SyncText, Printable, CommitsOk, MinersInv, DecisionsOk;
    if Lost(s) && f in s.followers && (f, text) in s.replies {
      var d := s.followers[f];
      ReplyGrows(h, d, text);
      if d == [] {
        var n: nat, from: nat :| n <= |s.chain| && from <= |d| && text == SyncText(s.chain[..n], from);
        assert s.chain[..0] == [];
        SyncCatchesUp(h, s.chain, 0, n, from);
        if n >= 2 {
          GoodBlocksDiffer(h, s.chain);
          assert s.chain[1..n][0] == s.chain[1];
        }
      }
    }
  }

  lemma NextMissing(h: Hasher, s: State, step: Step)
    requires Inv(h, s) && GenesisMissing(s)
    ensures GenesisMissing(Next(h, s, step))
  {
    hide Inv, Printable, Next;
    match step
    case Propose(payload) => ProposeMissing(h, s, payload);
    case DeliverCommit(f, line) => CommitMissing(h, s, f, line);
    case ApplySync(f, text) => SyncMissing(h, s, f, text);
    case _ => QuietStep(h, s, step);
  }

  lemma {:induction false} RunMissing(h: Hasher, s: State, steps: seq<Step>)
    requires Inv(h, s) && GenesisMissing(s)
    ensures GenesisMissing(Run(h, s, steps))
    decreases |steps|
  {
    hide Inv, Next, GenesisMissing;
    if steps != [] {
      NextKeeps(h, s, steps[0]);
      NextMissing(h, s, steps[0]);
      RunMissing(h, Next(h, s, steps[0]), steps[1..]);
    }
  }

  /** In every run from empty nodes, whatever is delivered, no follower ever holds a genesis
      block that cannot be printed. */
  lemma GenesisNeverArrives(h: Hasher, steps: seq<Step>)
    ensures GenesisMissing(Run(h, Init([]), steps))
  {
    hide Run;
    InitInv(h, []);
    RunMissing(h, Init([]), steps);
  }

  // ---- short chains ----

  /** The longest chain a follower can then reach while node 0 has at most three blocks. */
  function Furthest(c: seq<Block>): seq<Block>
    requires c != []
  {
    if |c| == 3 then c[1..] + [c[2]] else c[1..]
  }

  /** Followers that lost the genesis block still agree with each other. */
  predicate InLine(s: State) {
    Lost(s) && |s.chain| <= 3 ==> forall f :: f in s.followers ==> s.followers[f] <= Furthest(s.chain)
  }

  lemma FurthestGrows(c: seq<Block>, b: Block)
    requires c != [] && |c| < 3
    ensures Furthest(c) <= Furthest(c + [b])
  {
    assert (c + [b])[1..] == c[1..] + [b];
  }

  lemma ProposeInLine(h: Hasher, s: State, payload: string)
    requires Inv(h, s) && InLine(s)
    ensures InLine(Next(h, s, Propose(payload)))
  {
    hide GoodChain, OnProposal, Printable, Furthest, FromCsv, CsvLine, MinersInv, DecisionsOk, CommitsOk, RepliesOk;
    var c := OnProposal(h, s.chain, payload).chain;
    ProposalKeepsGood(h, s.chain, payload);
    if s.chain == [] {
      NothingYet(h, s);
    } else if |c| == |s.chain| + 1 <= 3 {
      assert c == s.chain + [c[|s.chain|]];
      FurthestGrows(s.chain, c[|s.chain|]);
    }
  }

  /** A follower in line holds c[1..k], or all of Furthest(c). */
  lemma InLineCases(c: seq<Block>, d: seq<Block>)
    requires 0 < |c| <= 3 && d <= Furthest(c)
    ensures d == [] || (|d| < |c| && d == c[1..|d| + 1]) || (|c| == 3 && d == Furthest(c))
    ensures d != [] ==> |d| <= 3 && |c| > 1 && d[|d| - 1] == c[if |d| < 3 then |d| else 2]
  {
    assert d == Furthest(c)[..|d|];
  }

  lemma CommitInLine(h: Hasher, c: seq<Block>, d: seq<Block>, j: nat)
    requires GoodChain(h, c) && 0 < |c| <= 3 && 0 < j < |c| && d <= Furthest(c)
    ensures OnCommit(h, d, CsvLine(c[j])).1 <= Furthest(c)
  {
    hide GoodChain, FromCsv, CsvLine, ParserShaped, ValidBlock, ValidLink, Printable, Storable;
    GoodBlock(h, c, j);
    InLineCases(c, d);
    if |d| == j {
      if j == 1 {
        GoodBlock(h, c, 1);
        assert d == c[1..2] && FindIndex(d, 0) == None by { FindIndexAbsent(d, 0); }
      } else {
        assert d == c[1..3];
        RepeatAppend(h, c, 1, 3);
      }
    }
  }

  lemma DeliverInLine(h: Hasher, s: State, f: nat, line: string)
    requires Inv(h, s) && InLine(s)
    ensures InLine(Next(h, s, DeliverCommit(f, line)))
  {
    hide GoodChain, OnCommit, Printable, CsvLine, Furthest, RepliesOk, MinersInv, DecisionsOk;
    if Lost(s) && |s.chain| <= 3 && f in s.followers && line in s.commits {
      var c := s.chain;
      var j :| 0 <= j < |c| && Printable(c[j]) && line == CsvLine(c[j]);
      CommitInLine(h, c, s.followers[f], j);
    }
  }

  lemma SyncInLine(h: Hasher, c: seq<Block>, d: seq<Block>, n: nat, from: nat)
    requires GoodChain(h, c) && 0 < |c| <= 3 && !Printable(c[0]) && d <= Furthest(c)
    requires n <= |c| && from <= |d|
    ensures OnSyncReply(h, d, SyncText(c[..n], from)) <= Furthest(c)
  {
    hide GoodChain, Grown, OnSyncReply, SyncText, Printable;
    InLineCases(c, d);
    if d == [] {
      assert c[..0] == [];
      SyncCatchesUp(h, c, 0, n, from);
      assert n > 0 ==> c[1..n] <= c[1..];
    } else {
      var p := if |d| < 3 then |d| + 1 else 3;
      GoodIsGrown(h, c);
      SyncAtLast(h, 0, 0, c, d, p, n, from);
      assert |d| < 3 && |d| < |c| && d == c[1..p] ==> d + c[p..Max(p, n)] == c[1..Max(p, n)];
      assert c[p..p] == [] && d + [] == d;
    }
  }

  lemma ApplyInLine(h: Hasher, s: State, f: nat, text: string)
    requires Inv(h, s) && InLine(s)
    ensures InLine(Next(h, s, ApplySync(f, text)))
  {
    hide GoodChain, OnSyncReply, SyncText, Printable, Furthest, CommitsOk, MinersInv, DecisionsOk;
    if Lost(s) && |s.chain| <= 3 && f in s.followers && (f, text) in s.replies {
      var d := s.followers[f];
      var n: nat, from: nat :| n <= |s.chain| && from <= |d| && text == SyncText(s.chain[..n], from);
      SyncInLine(h, s.chain, d, n, from);
    }
  }

  lemma NextInLine(h: Hasher, s: State, step: Step)
    requires Inv(h, s) && InLine(s)
    ensures InLine(Next(h, s, step))
  {
    hide Inv, Printable, Furthest, Next;
    match step
    case Propose(payload) => ProposeInLine(h, s, payload);
    case DeliverCommit(f, line) => DeliverInLine(h, s, f, line);
    case ApplySync(f, text) => ApplyInLine(h, s, f, text);
    case _ => QuietStep(h, s, step);
  }

  lemma {:induction false} RunInLine(h: Hasher, s: State, steps: seq<Step>)
    requires Inv(h, s) && InLine(s)
    ensures InLine(Run(h, s, steps))
    decreases |steps|
  {
    hide Inv, Next, InLine;
    if steps != [] {
      NextKeeps(h, s, steps[0]);
      NextInLine(h, s, steps[0]);
      RunInLine(h, Next(h, s, steps[0]), steps[1..]);
    }
  }

  // ---- runs that go wrong ----

  /** The proposals of the blocks of c, in order. */
  function Proposals(c: seq<Block>): seq<Step> {
    if c == [] then [] else [Propose(CsvLine(c[0]))] + Proposals(c[1..])
  }

  lemma ProposeNext(h: Hasher, c: seq<Block>, i: nat)
    requires GoodChain(h, c) && i < |c|
    ensures OnProposal(h, c[..i], CsvLine(c[i])) ==
            Handled(c[..i + 1], Accepted, if Printable(c[i]) then Some(CsvLine(c[i])) else None)
  {
    hide ValidChain, Printable, CsvLine, FromCsv, ParserShaped, Acceptable, Storable;
    GoodBlock(h, c, i);
    NotEmptyLine(c[i]);
    PrefixValid(h, c, i);
    PrefixValid(h, c, i + 1);
    assert c[..i + 1] == c[..i] + [c[i]];
    IncrementalIsWhole(h, c[..i], c[i]);
    AppendExact(c[..i], c[i]);
  }

  lemma NotEmptyLine(b: Block)
    requires IsHash(b.previousHash) && IsHash(b.merkleRoot)
    ensures CsvLine(b) != ""
  {
    HeaderLength(b, Quoted(Join(b.transactions)));
  }

  /** Node 0 takes the rest of c, and its commits are in the network. */
  predicate Proposed(s: State, e: State, c: seq<Block>, i: nat) {
    && e.chain == c && e.initial == s.initial && e.followers == s.followers && s.commits <= e.commits
    && e.replies == s.replies
    && forall j :: i <= j < |c| && Printable(c[j]) ==> CsvLine(c[j]) in e.commits
  }

  lemma ProposeOne(h: Hasher, s: State, c: seq<Block>, i: nat)
    requires GoodChain(h, c) && i < |c| && s.chain == c[..i]
    ensures var n := Next(h, s, Propose(CsvLine(c[i])));
            && n.chain == c[..i + 1] && n.initial == s.initial && n.followers == s.followers
            && s.commits <= n.commits && (Printable(c[i]) ==> CsvLine(c[i]) in n.commits)
            && n.replies == s.replies
  {
    hide GoodChain, OnProposal, CsvLine, Printable;
    ProposeNext(h, c, i);
  }

  lemma {:induction false} ProposeRest(h: Hasher, s: State, c: seq<Block>, i: nat)
    requires GoodChain(h, c) && i <= |c| && s.chain == c[..i]
    ensures Proposed(s, Run(h, s, Proposals(c[i..])), c, i)
    decreases |c| - i
  {
    hide GoodChain, CsvLine, Printable, Next;
    if i < |c| {
      ProposeOne(h, s, c, i);
      var step, rest := Propose(CsvLine(c[i])), Proposals(c[i + 1..]);
      assert c[i..][0] == c[i] && c[i..][1..] == c[i + 1..];
      assert Proposals(c[i..]) == [step] + rest;
      RunCons(h, s, step, rest);
      ProposeRest(h, Next(h, s, step), c, i + 1);
    } else {
      assert c[i..] == [] && c[..i] == c;
    }
  }

  /** An empty follower hears of block 1, asks for everything, and applies the answer. */
  function CatchUp(c: seq<Block>, f: nat): seq<Step>
    requires |c| >= 2
  {
    [DeliverCommit(f, CsvLine(c[1]))] + ([ServeSync(f, 0)] + ([ApplySync(f, SyncText(c, 0))] + []))
  }

  /** Follower f gets the chain d, and the rest stays. */
  predicate Moved(s: State, e: State, f: nat, d: seq<Block>) {
    && e.chain == s.chain && e.initial == s.initial && e.commits == s.commits
    && e.followers == s.followers[f := d]
  }

  lemma CatchUpRun(h: Hasher, s: State, c: seq<Block>, f: nat)
    requires GoodChain(h, c) && 2 <= |c| <= 15 && s.chain == c
    requires f in s.followers && s.followers[f] == [] && CsvLine(c[1]) in s.commits
    ensures var e := Run(h, s, CatchUp(c, f));
            && Moved(s, e, f, if Printable(c[0]) then c else c[1..])
            && e.replies == s.replies + {(f, SyncText(c, 0))}
  {
    hide GoodChain, OnCommit, OnSyncReply, CsvLine, Printable, SyncText, Run;
    var text, a, b, d := SyncText(c, 0), DeliverCommit(f, CsvLine(c[1])), ServeSync(f, 0), ApplySync(f, SyncText(c, 0));
    assert c[..0] == [] && c[..|c|] == c && c[1..|c|] == c[1..];
    CommitAtPrefix(h, c, 0, 1);
    var s1 := Next(h, s, a);
    assert s1.followers == s.followers && (f, 0) in s1.requests;
    ShortGapFits(c, 0);
    var s2 := Next(h, s1, b);
    assert (f, text) in s2.replies;
    SyncCatchesUp(h, c, 0, |c|, 0);
    RunCons(h, s, a, [b] + ([d] + []));
    RunCons(h, s1, b, [d] + []);
    RunCons(h, s2, d, []);
    RunNone(h, Next(h, s2, d));
  }

  lemma RunNone(h: Hasher, s: State)
    ensures Run(h, s, []) == s
  {
  }

  lemma RunOne(h: Hasher, s: State, step: Step)
    ensures Run(h, s, [step]) == Next(h, s, step)
  {
    hide Next;
    assert [step] + [] == [step];
    RunCons(h, s, step, []);
    RunNone(h, Next(h, s, step));
  }

  /** Node 0 accepts the first two blocks of c, and follower 0 recovers from an empty chain. */
  function DivergingSteps(c: seq<Block>): seq<Step>
    requires |c| >= 2
  {
    [StartNode(0)] + (Proposals(c[..2]) + CatchUp(c[..2], 0))
  }

  lemma StartOne(h: Hasher)
    ensures var s := Next(h, Init([]), StartNode(0));
            s.chain == [] && s.initial == [] && s.followers == map[0 := []] && s.replies == {}
  {
  }

  lemma FirstTwo(h: Hasher, s: State, c: seq<Block>)
    requires GoodChain(h, c) && |c| == 2 && s.chain == []
    ensures var e := Run(h, s, Proposals(c));
            && e.chain == c && e.initial == s.initial && e.followers == s.followers && CsvLine(c[1]) in e.commits
            && e.replies == s.replies
  {
    hide GoodChain, CsvLine, Printable, Run, Proposals;
    assert c[..0] == [] && c[0..] == c;
    GoodBlock(h, c, 1);
    ProposeRest(h, s, c, 0);
  }

  /** Follower 0 gets what can be sent of the first two blocks. */
  lemma FirstCatchUp(h: Hasher, c: seq<Block>)
    requires GoodChain(h, c) && |c| >= 2
    ensures var e := Run(h, Init([]), DivergingSteps(c));
            && e.chain == c[..2] && e.initial == []
            && e.followers == map[0 := if Printable(c[0]) then c[..2] else [c[1]]]
            && e.replies == {(0, SyncText(c[..2], 0))}
  {
    hide GoodChain, CsvLine, Printable, Run, CatchUp, Proposals, Next, SyncText;
    var d := c[..2];
    GoodPrefix(h, c, 2);
    StartOne(h);
    var s1 := Next(h, Init([]), StartNode(0));
    RunCons(h, Init([]), StartNode(0), Proposals(d) + CatchUp(d, 0));
    RunConcat(h, s1, Proposals(d), CatchUp(d, 0));
    FirstTwo(h, s1, d);
    assert d[1..] == [c[1]];
    CatchUpRun(h, Run(h, s1, Proposals(d)), d, 0);
  }

  lemma DivergingRun(h: Hasher, c: seq<Block>)
    requires GoodChain(h, c) && |c| >= 2 && !Printable(c[0])
    ensures var e := Run(h, Init([]), DivergingSteps(c));
            e.chain == c[..2] && e.followers == map[0 := [c[1]]]
  {
    hide GoodChain, Printable, Run, DivergingSteps, SyncText;
    FirstCatchUp(h, c);
  }

  // ---- node 0 and a follower ----

  ghost predicate Disagree(s: State) { exists f :: f in s.followers && !(s.followers[f] <= s.chain) }

  lemma DisagreementReached(h: Hasher, c: seq<Block>)
    requires GoodChain(h, c) && |c| >= 2 && !Printable(c[0])
    ensures exists steps :: Run(h, Init([]), steps).chain == c && Disagree(Run(h, Init([]), steps))
  {
    hide GoodChain, Printable, Run, CsvLine, SyncText, DivergingSteps, Proposals;
    var steps := DivergingSteps(c) + Proposals(c[2..]);
    DivergingRun(h, c);
    var mid := Run(h, Init([]), DivergingSteps(c));
    RunConcat(h, Init([]), DivergingSteps(c), Proposals(c[2..]));
    ProposeRest(h, mid, c, 2);
    var e := Run(h, Init([]), steps);
    assert e.chain == c && e.followers[0] == [c[1]];
    GoodBlocksDiffer(h, c);
    assert Disagree(e);
  }

  /** From the empty start node 0 only ever holds good chains. */
  lemma ReachedIsGood(h: Hasher, steps: seq<Step>)
    ensures GoodChain(h, Run(h, Init([]), steps).chain)
  {
    hide Run, CommitsOk, RepliesOk, MinersInv, DecisionsOk, GoodChain;
    EmptyIsGood(h);
    InitInv(h, []);
    RunKeeps(h, Init([]), steps);
  }

  // ---- two followers ----

  /** Two followers hold different blocks at a common height. */
  ghost predicate Fork(s: State) {
    exists f, g, i :: ForkAt(s, f, g, i)
  }

  predicate ForkAt(s: State, f: nat, g: nat, i: nat) {
    && f in s.followers && g in s.followers && i < |s.followers[f]| && i < |s.followers[g]|
    && s.followers[f][i] != s.followers[g][i]
  }

  /** Follower 0 loses the genesis block and applies the commit of block 2 twice. */
  function FirstSteps(c: seq<Block>): seq<Step>
    requires |c| == 3
  {
    Proposals(c) + (CatchUp(c, 0) + [DeliverCommit(0, CsvLine(c[2]))])
  }

  lemma RepeatedCommit(h: Hasher, s: State, c: seq<Block>)
    requires GoodChain(h, c) && |c| == 3 && s.chain == c
    requires 0 in s.followers && s.followers[0] == c[1..] && CsvLine(c[2]) in s.commits
    ensures Moved(s, Run(h, s, [DeliverCommit(0, CsvLine(c[2]))]), 0, [c[1], c[2], c[2]])
  {
    hide GoodChain, CsvLine, Printable, Run, OnCommit;
    assert c[1..] == c[1..3];
    RepeatAppend(h, c, 1, 3);
    assert c[1..3] + [c[2]] == [c[1], c[2], c[2]];
    RunOne(h, s, DeliverCommit(0, CsvLine(c[2])));
  }

  lemma FirstThree(h: Hasher, s: State, c: seq<Block>)
    requires GoodChain(h, c) && |c| == 3 && s.chain == []
    ensures var e := Run(h, s, Proposals(c));
            && e.chain == c && e.initial == s.initial && e.followers == s.followers
            && CsvLine(c[1]) in e.commits && CsvLine(c[2]) in e.commits
  {
    hide GoodChain, CsvLine, Printable, Run, Proposals;
    assert c[..0] == [] && c[0..] == c;
    GoodBlock(h, c, 1);
    GoodBlock(h, c, 2);
    ProposeRest(h, s, c, 0);
  }

  lemma ForkFirst(h: Hasher, s: State, c: seq<Block>)
    requires GoodChain(h, c) && |c| == 3 && !Printable(c[0])
    requires s.chain == [] && s.initial == [] && s.followers == map[0 := [], 1 := []]
    ensures var e := Run(h, s, FirstSteps(c));
            && e.chain == c && e.initial == [] && CsvLine(c[1]) in e.commits
            && e.followers == map[0 := [c[1], c[2], c[2]], 1 := []]
  {
    hide GoodChain, CsvLine, Printable, Run, CatchUp, Proposals, Next;
    var repeat := [DeliverCommit(0, CsvLine(c[2]))];
    var s1 := Run(h, s, Proposals(c));
    var s2 := Run(h, s1, CatchUp(c, 0));
    RunConcat(h, s, Proposals(c), CatchUp(c, 0) + repeat);
    RunConcat(h, s1, CatchUp(c, 0), repeat);
    FirstThree(h, s, c);
    CatchUpRun(h, s1, c, 0);
    RepeatedCommit(h, s2, c);
  }

  /** Node 0 takes one more block, and follower 1 loses the genesis block too. */
  function SecondSteps(c: seq<Block>): seq<Step>
    requires |c| == 4
  {
    Proposals(c[3..]) + CatchUp(c, 1)
  }

  lemma ForkSecond(h: Hasher, s: State, c: seq<Block>)
    requires GoodChain(h, c) && |c| == 4 && !Printable(c[0])
    requires s.chain == c[..3] && s.initial == [] && CsvLine(c[1]) in s.commits
    requires s.followers == map[0 := [c[1], c[2], c[2]], 1 := []]
    ensures var e := Run(h, s, SecondSteps(c));
            e.chain == c && e.initial == [] && e.followers == map[0 := [c[1], c[2], c[2]], 1 := c[1..]]
  {
    hide GoodChain, CsvLine, Printable, Run, CatchUp, Proposals;
    RunConcat(h, s, Proposals(c[3..]), CatchUp(c, 1));
    ProposeRest(h, s, c, 3);
    CatchUpRun(h, Run(h, s, Proposals(c[3..])), c, 1);
  }

  function ForkingSteps(c: seq<Block>): seq<Step>
    requires |c| >= 4
  {
    [StartNode(0)] + ([StartNode(1)] + (FirstSteps(c[..3]) + (SecondSteps(c[..4]) + Proposals(c[4..]))))
  }

  lemma StartTwo(h: Hasher, rest: seq<Step>)
    ensures var s := Next(h, Next(h, Init([]), StartNode(0)), StartNode(1));
            && Run(h, Init([]), [StartNode(0)] + ([StartNode(1)] + rest)) == Run(h, s, rest)
            && s.chain == [] && s.initial == [] && s.followers == map[0 := [], 1 := []]
  {
    hide Run;
    var s := Next(h, Init([]), StartNode(0));
    RunCons(h, Init([]), StartNode(0), [StartNode(1)] + rest);
    RunCons(h, s, StartNode(1), rest);
  }

  lemma ForkingRun(h: Hasher, c: seq<Block>)
    requires GoodChain(h, c) && |c| >= 4 && !Printable(c[0])
    ensures var e := Run(h, Init([]), ForkingSteps(c));
            e.chain == c && e.followers == map[0 := [c[1], c[2], c[2]], 1 := [c[1], c[2], c[3]]]
  {
    hide GoodChain, CsvLine, Printable, Run, FirstSteps, SecondSteps, Proposals, Next;
    var c3, c4, rest := c[..3], c[..4], Proposals(c[4..]);
    GoodPrefix(h, c, 3);
    GoodPrefix(h, c, 4);
    assert c4[..3] == c3 && c4[1..] == [c[1], c[2], c[3]];
    StartTwo(h, FirstSteps(c3) + (SecondSteps(c4) + rest));
    var s2 := Next(h, Next(h, Init([]), StartNode(0)), StartNode(1));
    RunConcat(h, s2, FirstSteps(c3), SecondSteps(c4) + rest);
    ForkFirst(h, s2, c3);
    var s3 := Run(h, s2, FirstSteps(c3));
    RunConcat(h, s3, SecondSteps(c4), rest);
    ForkSecond(h, s3, c4);
    ProposeRest(h, Run(h, s3, SecondSteps(c4)), c, 4);
  }

  lemma ForkReached(h: Hasher, c: seq<Block>)
    requires GoodChain(h, c) && |c| >= 4 && !Printable(c[0])
    ensures exists steps :: Run(h, Init([]), steps).chain == c && Fork(Run(h, Init([]), steps))
  {
    hide GoodChain, Printable, Run, Fork, ForkingSteps;
    ForkingRun(h, c);
    var e := Run(h, Init([]), ForkingSteps(c));
    GoodBlock(h, c, 2);
    GoodBlock(h, c, 3);
    assert e.followers[0][2] == c[2] && e.followers[1][2] == c[3];
    ForkFrom(e, 0, 1, 2);
  }

  lemma ForkFrom(s: State, f: nat, g: nat, i: nat)
    requires ForkAt(s, f, g, i)
    ensures Fork(s)
  {
  }

  lemma NoFork(s: State, c: seq<Block>)
    requires forall f :: f in s.followers ==> s.followers[f] <= c
    ensures !Fork(s)
  {
  }

  /** Two followers can hold different blocks at a common height: from the empty start exactly when,
      besides, node 0 has at least four blocks; from a file only when a commit is accepted at the
      wrong height. */
  lemma ForkExact(h: Hasher, initial: seq<Block>, c: seq<Block>)
    requires Startable(initial)
    ensures initial == [] ==>
              ((exists steps :: Run(h, Init([]), steps).chain == c && Fork(Run(h, Init([]), steps)))
               <==> GoodChain(h, c) && |c| >= 4 && !Printable(c[0]))
    ensures initial != [] && NoWrap(initial, c) && !Wrong(h, initial, c) ==>
              !exists steps :: Run(h, Init(initial), steps).chain == c && Fork(Run(h, Init(initial), steps))
  {
    hide GoodChain, Printable, Run, Fork, Furthest, Startable, Wrong, NoWrap;
    if initial != [] {
      forall steps | Run(h, Init(initial), steps).chain == c && NoWrap(initial, c) && !Wrong(h, initial, c)
        ensures !Fork(Run(h, Init(initial), steps))
      {
        Agreement(h, initial, steps);
        NoFork(Run(h, Init(initial), steps), c);
      }
    } else if GoodChain(h, c) && |c| >= 4 && !Printable(c[0]) {
      ForkReached(h, c);
    } else {
      forall steps | Run(h, Init([]), steps).chain == c ensures !Fork(Run(h, Init([]), steps)) {
        var s := Run(h, Init([]), steps);
        ReachedIsGood(h, steps);
        Agreement(h, [], steps);
        if Settled(h, s) {
          NoFork(s, c);
        } else {
          EmptyIsGood(h);
          InitInv(h, []);
          RunInLine(h, Init([]), steps);
          NoFork(s, Furthest(c));
        }
      }
    }
  }

  // ---- such chains exist ----

  lemma QuotedGenesis(h: Hasher)
    ensures var g := Candidate(h, 0, ZEROS, 0, 0, ["\""]);
            ValidBlock(h, g) && ParserShaped(g) && !Printable(g)
  {
    hide MerkleRoot;
    var g := Candidate(h, 0, ZEROS, 0, 0, ["\""]);
    assert g.transactions[0] == "\"" && "\"" in g.transactions && !PrintableTx("\"");
  }

  /** Such chains exist in every length, whatever the hash function: a quote as genesis payload,
      then any candidates on top of it. */
  lemma UnprintableGenesisExists(h: Hasher, n: nat)
    requires 0 < n <= MAX_BLOCKS
    ensures exists c :: GoodChain(h, c) && |c| == n && !Printable(c[0])
  {
    hide GoodChain, ValidBlock, ParserShaped, Printable, CsvLine, FromCsv, Extended;
    var g := Candidate(h, 0, ZEROS, 0, 0, ["\""]);
    QuotedGenesis(h);
    SampleTx();
    GoodGenesis(h, g);
    var c := Extended(h, [g], n, [SAMPLE_TX]);
    ExtendedGood(h, [g], n, [SAMPLE_TX]);
    assert c[0] == g;
  }
}
