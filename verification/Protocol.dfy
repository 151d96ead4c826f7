/** The replication protocol as a transition system: node 0, its followers, the miners, and a
    network that loses, duplicates, delays and reorders every message. */
module Protocol {
  import opened Text
  import opened Blocks
  import opened Hashing
  import opened Validation
  import opened ChainFile
  import opened Mempool
  import opened NodeHandlers
  import opened MinerProcess

  // ---- states and steps ----

  datatype Decision = Decision(payload: string, accepted: bool)

  /** The network fields hold every message ever sent: a message may be delivered never, once
      or many times, and in any order. A restarted node or miner is a new number. */
  datatype State = State(
    initial: seq<Block>,
    chain: seq<Block>,
    decisions: seq<Decision>,
    followers: map<nat, seq<Block>>,
    commits: set<string>,
    requests: set<(nat, nat)>,
    replies: set<(nat, string)>,
    miners: map<nat, MinerState>,
    heights: set<(nat, nat)>,
    lookups: set<(nat, string)>)

  datatype Step =
    | Propose(payload: string)                 // any payload at all, from anyone
    | DeliverCommit(f: nat, line: string)
    | ServeSync(f: nat, from: nat)
    | ApplySync(f: nat, text: string)          // the follower's lock was free since the request
    | StartNode(f: nat)
    | StartMiner(m: nat)
    | Submit(m: nat, payload: string)
    | CommitToMiner(m: nat, line: string)
    | AskHeight(m: nat)
    | HeightReply(m: nat, height: nat)
    | BlockReply(m: nat, text: string)

  function Init(initial: seq<Block>): State {
    State(initial, initial, [], map[], {}, {}, {}, map[], {}, {})
  }

  /** One atomic step; a step whose message was never sent changes nothing. */
  function Next(h: Hasher, s: State, step: Step): State {
    match step
    case Propose(payload) =>
      var r := OnProposal(h, s.chain, payload);
      s.(chain := r.chain,
         decisions := s.decisions + [Decision(payload, r.reply.Accepted?)],
         commits := s.commits + (if r.broadcast.Some? then {r.broadcast.value} else {}))
    case DeliverCommit(f, line) =>
      if f !in s.followers || line !in s.commits then s
      else
        var r := OnCommit(h, s.followers[f], line);
        s.(followers := s.followers[f := r.1],
           requests := s.requests + (if r.0.Behind? then {(f, r.0.from)} else {}))
    case ServeSync(f, from) =>
      if (f, from) !in s.requests || OnSyncRequest(s.chain, from).None? then s
      else s.(replies := s.replies + {(f, OnSyncRequest(s.chain, from).value)})
    case ApplySync(f, text) =>
      if f !in s.followers || (f, text) !in s.replies then s
      else s.(followers := s.followers[f := OnSyncReply(h, s.followers[f], text)])
    case StartNode(f) => if f in s.followers then s else s.(followers := s.followers[f := s.initial])
    case StartMiner(m) => if m in s.miners then s else s.(miners := s.miners[m := START])
    case Submit(m, payload) =>
      if m !in s.miners then s else s.(miners := s.miners[m := OnSubmit(s.miners[m], payload).1])
    case CommitToMiner(m, line) =>
      if m !in s.miners || line !in s.commits then s
      else s.(miners := s.miners[m := OnBlockCommit(h, s.miners[m], line)])
    case AskHeight(m) => s.(heights := s.heights + {(m, |s.chain|)})
    case HeightReply(m, height) =>
      if m !in s.miners || (m, height) !in s.heights then s
      else if height == 0 then s.(miners := s.miners[m := OnEmptyChain(s.miners[m])])
      else s.(lookups := s.lookups + {(m, OnQueryIndex(s.chain, height - 1))})
    case BlockReply(m, text) =>
      if m !in s.miners || (m, text) !in s.lookups then s
      else s.(miners := s.miners[m := OnBlockReply(h, s.miners[m], text)])
  }

  function Run(h: Hasher, s: State, steps: seq<Step>): State
    decreases |steps|
  {
    if steps == [] then s else Run(h, Next(h, s, steps[0]), steps[1..])
  }

  // ---- the invariant, field by field ----

  /** A line that node 0 printed for one of its blocks. */
  ghost predicate PrintedFrom(c: seq<Block>, line: string) {
    exists j :: 0 <= j < |c| && Printable(c[j]) && line == CsvLine(c[j])
  }

  ghost predicate CommitsOk(c: seq<Block>, commits: set<string>) {
    forall line :: line in commits ==> PrintedFrom(c, line)
  }

  /** An answer of node 0 computed when it had n blocks, for a request at height `from`. */
  ghost predicate AnswerFrom(c: seq<Block>, height: nat, text: string) {
    exists n: nat, from: nat :: n <= |c| && from <= height && text == SyncText(c[..n], from)
  }

  predicate RequestsOk(fs: map<nat, seq<Block>>, requests: set<(nat, nat)>) {
    forall r :: r in requests ==> r.0 in fs && r.1 <= |fs[r.0]|
  }

  ghost predicate RepliesOk(c: seq<Block>, fs: map<nat, seq<Block>>, replies: set<(nat, string)>) {
    forall r :: r in replies ==> r.0 in fs && AnswerFrom(c, |fs[r.0]|, r.1)
  }

  predicate FollowersStarted(initial: seq<Block>, fs: map<nat, seq<Block>>) {
    forall f :: f in fs ==> |initial| <= |fs[f]|
  }

  /** Every follower holds a prefix of node 0's chain. */
  predicate FollowersAgree(c: seq<Block>, fs: map<nat, seq<Block>>) {
    forall f :: f in fs ==> fs[f] <= c
  }

  /** The states in which every follower is bound to agree: the nodes started from a common
      non-empty chain, or node 0 holds at most one block, or its genesis block can be printed. */
  predicate Safe(s: State) { s.initial != [] || |s.chain| < 2 || Printable(s.chain[0]) }

  predicate MinersCoherent(h: Hasher, c: seq<Block>, miners: map<nat, MinerState>) {
    forall m :: m in miners ==> ViewOf(h, c, miners[m].next, miners[m].previous)
  }

  predicate PoolsValid(miners: map<nat, MinerState>) {
    forall m :: m in miners ==> AllValidTx(miners[m].pool)
  }

  predicate HeightsOk(c: seq<Block>, heights: set<(nat, nat)>) {
    forall r :: r in heights ==> r.1 <= |c|
  }

  ghost predicate LookupsOk(c: seq<Block>, lookups: set<(nat, string)>) {
    forall r :: r in lookups ==> PrintedFrom(c, r.1) || FromCsv(r.1).Err?
  }

  function AcceptedIn(ds: seq<Decision>): nat {
    if ds == [] then 0 else AcceptedIn(ds[..|ds| - 1]) + if ds[|ds| - 1].accepted then 1 else 0
  }

  /** The p-th decision, if it accepted a block, put it right after those accepted before. */
  predicate DecisionOk(s: State, p: int)
    requires 0 <= p < |s.decisions|
  {
    s.decisions[p].accepted ==>
      var at := |s.initial| + AcceptedIn(s.decisions[..p]);
      at < |s.chain| && FromCsv(s.decisions[p].payload) == Ok(s.chain[at])
  }

  /** The accepted blocks, in order. */
  function AcceptedBlocks(ds: seq<Decision>): seq<Block> {
    if ds == [] then []
    else
      var d := ds[|ds| - 1];
      AcceptedBlocks(ds[..|ds| - 1]) + if d.accepted && FromCsv(d.payload).Ok? then [FromCsv(d.payload).value] else []
  }

  predicate DecisionsOk(s: State) {
    && s.chain == s.initial + AcceptedBlocks(s.decisions)
    && |s.chain| == |s.initial| + AcceptedIn(s.decisions)
    && forall p :: 0 <= p < |s.decisions| ==> DecisionOk(s, p)
  }

  ghost predicate NodesInv(h: Hasher, s: State) {
    && GoodChain(h, s.chain) && s.initial <= s.chain
    && CommitsOk(s.chain, s.commits)
    && RequestsOk(s.followers, s.requests)
    && RepliesOk(s.chain, s.followers, s.replies)
    && FollowersStarted(s.initial, s.followers)
    && (Safe(s) ==> FollowersAgree(s.chain, s.followers))
  }

  ghost predicate MinersInv(h: Hasher, s: State) {
    && MinersCoherent(h, s.chain, s.miners) && PoolsValid(s.miners)
    && HeightsOk(s.chain, s.heights) && LookupsOk(s.chain, s.lookups)
  }

  ghost predicate Inv(h: Hasher, s: State) { NodesInv(h, s) && MinersInv(h, s) && DecisionsOk(s) }

  // ---- node 0's chain grows ----

  lemma PrintedGrows(c: seq<Block>, c': seq<Block>, line: string)
    requires c <= c' && PrintedFrom(c, line)
    ensures PrintedFrom(c', line)
  {
    hide Printable, CsvLine;
    var j :| 0 <= j < |c| && Printable(c[j]) && line == CsvLine(c[j]);
    assert c'[j] == c[j];
  }

  lemma AnswerGrows(c: seq<Block>, c': seq<Block>, height: nat, height': nat, text: string)
    requires c <= c' && height <= height' && AnswerFrom(c, height, text)
    ensures AnswerFrom(c', height', text)
  {
    hide SyncText;
    var n: nat, from: nat :| n <= |c| && from <= height && text == SyncText(c[..n], from);
    assert c'[..n] == c[..n];
  }

  lemma NodesGrow(h: Hasher, s: State, c: seq<Block>, commits: set<string>, ds: seq<Decision>)
    requires NodesInv(h, s) && s.chain <= c && GoodChain(h, c) && CommitsOk(c, commits)
    ensures NodesInv(h, s.(chain := c, commits := commits, decisions := ds))
  {
    hide GoodChain, Printable, PrintedFrom, AnswerFrom;
    forall r | r in s.replies ensures AnswerFrom(c, |s.followers[r.0]|, r.1) {
      AnswerGrows(s.chain, c, |s.followers[r.0]|, |s.followers[r.0]|, r.1);
    }
    assert Safe(s.(chain := c)) ==> Safe(s);
  }

  lemma MinersGrow(h: Hasher, s: State, c: seq<Block>, commits: set<string>, ds: seq<Decision>)
    requires MinersInv(h, s) && s.chain <= c
    ensures MinersInv(h, s.(chain := c, commits := commits, decisions := ds))
  {
    hide PrintedFrom, FromCsv, HashOf, AllValidTx;
    forall r | r in s.lookups && PrintedFrom(s.chain, r.1) ensures PrintedFrom(c, r.1) {
      PrintedGrows(s.chain, c, r.1);
    }
  }

  lemma DecisionsGrow(s: State, payload: string, accepted: bool, b: Block, commits: set<string>)
    requires DecisionsOk(s) && (accepted ==> FromCsv(payload) == Ok(b))
    ensures DecisionsOk(s.(chain := if accepted then s.chain + [b] else s.chain, commits := commits,
                           decisions := s.decisions + [Decision(payload, accepted)]))
  {
    hide FromCsv;
    var ds := s.decisions + [Decision(payload, accepted)];
    var s' := s.(chain := if accepted then s.chain + [b] else s.chain, commits := commits, decisions := ds);
    assert ds[..|ds| - 1] == s.decisions;
    assert s.chain + [b] == s.initial + (AcceptedBlocks(s.decisions) + [b]);
    assert AcceptedBlocks(s.decisions) + [] == AcceptedBlocks(s.decisions);
    forall p | 0 <= p < |ds| ensures DecisionOk(s', p) {
      if p < |s.decisions| {
        assert DecisionOk(s, p) && ds[..p] == s.decisions[..p];
      }
    }
  }

  lemma ProposeKeeps(h: Hasher, s: State, payload: string)
    requires Inv(h, s)
    ensures Inv(h, Next(h, s, Propose(payload)))
  {
    hide GoodChain, OnProposal, PrintedFrom, DecisionsOk, MinersInv, Printable, CsvLine, FromCsv;
    var r := OnProposal(h, s.chain, payload);
    ProposalKeepsGood(h, s.chain, payload);
    var commits := s.commits + (if r.broadcast.Some? then {r.broadcast.value} else {});
    var ds := s.decisions + [Decision(payload, r.reply.Accepted?)];
    assert s.chain <= r.chain;
    forall line | line in commits ensures PrintedFrom(r.chain, line) {
      if line in s.commits { PrintedGrows(s.chain, r.chain, line); } else { PrintedHere(r.chain, |s.chain|); }
    }
    NodesGrow(h, s, r.chain, commits, ds);
    MinersGrow(h, s, r.chain, commits, ds);
    if r.reply.Accepted? {
      assert r.chain == s.chain + [r.chain[|s.chain|]];
      DecisionsGrow(s, payload, true, r.chain[|s.chain|], commits);
    } else {
      DecisionsGrow(s, payload, false, Block(0, 0, "", "", 0, []), commits);
    }
  }

  lemma PrintedHere(c: seq<Block>, j: nat)
    requires j < |c| && Printable(c[j])
    ensures PrintedFrom(c, CsvLine(c[j]))
  {
  }

  // ---- followers ----

  lemma CommitGrows(h: Hasher, c: seq<Block>, line: string)
    ensures var r := OnCommit(h, c, line);
            c <= r.1 && (r.0.Behind? ==> r.0.from == |c| && r.1 == c)
  {
    hide FromCsv, ValidBlock, ValidLink, FindIndex, AppendBlock, Storable;
    if FromCsv(line).Ok? { AppendExact(c, FromCsv(line).value); }
  }

  lemma LineGrows(h: Hasher, c: seq<Block>, line: string)
    ensures c <= ApplyLine(h, c, line)
  {
    hide FromCsv, ValidBlock, ValidLink, AppendBlock, Storable;
    if FromCsv(line).Ok? { AppendExact(c, FromCsv(line).value); }
  }

  lemma {:induction false} ApplyGrows(h: Hasher, c: seq<Block>, lines: seq<string>)
    ensures c <= ApplyLines(h, c, lines)
    decreases |lines|
  {
    hide ApplyLine;
    if lines != [] {
      LineGrows(h, c, lines[0]);
      ApplyGrows(h, ApplyLine(h, c, lines[0]), lines[1..]);
    }
  }

  /** A commit of node 0 at a follower that holds its first k blocks. */
  lemma CommitAtPrefix(h: Hasher, c: seq<Block>, k: nat, j: nat)
    requires GoodChain(h, c) && k <= |c| && j < |c|
    ensures OnCommit(h, c[..k], CsvLine(c[j])) ==
            if j < k then (Old, c[..k]) else if j > k then (Behind(k), c[..k]) else (Appended, c[..k + 1])
  {
    hide GoodChain, FromCsv, CsvLine, ValidBlock, ValidLink, ParserShaped, FindIndex, Storable, Printable;
    GoodSize(h, c);
    GoodBlock(h, c, j);
    if j == k {
      AppendExact(c[..k], c[k]);
      assert c[..k + 1] == c[..k] + [c[k]];
      if k > 0 {
        GoodPrefix(h, c, k);
        GoodLookup(h, c[..k], k - 1);
        GoodLink(h, c, k);
      }
    }
  }

  /** One follower is replaced by a longer chain that agrees if the run is safe. */
  lemma FollowerMoves(h: Hasher, s: State, f: nat, c: seq<Block>, requests: set<(nat, nat)>)
    requires NodesInv(h, s) && (f in s.followers ==> |s.followers[f]| <= |c|) && |s.initial| <= |c|
    requires RequestsOk(s.followers[f := c], requests)
    requires Safe(s) ==> c <= s.chain
    ensures NodesInv(h, s.(followers := s.followers[f := c], requests := requests))
  {
    hide GoodChain, Printable, PrintedFrom, AnswerFrom;
    var fs := s.followers[f := c];
    forall r | r in s.replies ensures r.0 in fs && AnswerFrom(s.chain, |fs[r.0]|, r.1) {
      AnswerGrows(s.chain, s.chain, |s.followers[r.0]|, |fs[r.0]|, r.1);
    }
  }

  lemma CommitAgrees(h: Hasher, chain: seq<Block>, c: seq<Block>, line: string)
    requires GoodChain(h, chain) && PrintedFrom(chain, line) && c <= chain
    ensures OnCommit(h, c, line).1 <= chain
  {
    hide GoodChain, Printable, CsvLine, OnCommit;
    var j :| 0 <= j < |chain| && Printable(chain[j]) && line == CsvLine(chain[j]);
    assert c == chain[..|c|];
    CommitAtPrefix(h, chain, |c|, j);
  }

  lemma DeliverCommitKeeps(h: Hasher, s: State, f: nat, line: string)
    requires NodesInv(h, s)
    ensures NodesInv(h, Next(h, s, DeliverCommit(f, line)))
  {
    hide GoodChain, Printable, RepliesOk, PrintedFrom, OnCommit, FollowersStarted;
    if f in s.followers && line in s.commits {
      var c := s.followers[f];
      var r := OnCommit(h, c, line);
      CommitGrows(h, c, line);
      if Safe(s) { CommitAgrees(h, s.chain, c, line); }
      var requests := s.requests + (if r.0.Behind? then {(f, r.0.from)} else {});
      assert RequestsOk(s.followers[f := r.1], requests);
      assert |s.initial| <= |c| by { StartedAt(s, f); }
      FollowerMoves(h, s, f, r.1, requests);
    }
  }

  lemma StartedAt(s: State, f: nat)
    requires FollowersStarted(s.initial, s.followers) && f in s.followers
    ensures |s.initial| <= |s.followers[f]|
  {
  }

  /** A follower that is still empty started empty. */
  lemma SafeGenesis(s: State, f: nat)
    requires FollowersStarted(s.initial, s.followers) && Safe(s) && f in s.followers
    ensures s.followers[f] == [] ==> s.initial == [] && (|s.chain| < 2 || Printable(s.chain[0]))
  {
    hide Printable;
  }

  lemma ApplySyncKeeps(h: Hasher, s: State, f: nat, text: string)
    requires NodesInv(h, s)
    ensures NodesInv(h, Next(h, s, ApplySync(f, text)))
  {
    hide GoodChain, Printable, SyncText, CommitsOk, Tokens, ApplyLines;
    if f in s.followers && (f, text) in s.replies {
      var c := s.followers[f];
      ApplyGrows(h, c, Tokens(text));
      if Safe(s) {
        var n: nat, from: nat :| n <= |s.chain| && from <= |c| && text == SyncText(s.chain[..n], from);
        assert c == s.chain[..|c|];
        SafeGenesis(s, f);
        SyncCatchesUp(h, s.chain, |c|, n, from);
      }
      FollowerMoves(h, s, f, OnSyncReply(h, c, text), s.requests);
    }
  }

  lemma ServeSyncKeeps(h: Hasher, s: State, f: nat, from: nat)
    requires NodesInv(h, s)
    ensures NodesInv(h, Next(h, s, ServeSync(f, from)))
  {
    hide GoodChain, Printable, SyncText, CommitsOk;
    if (f, from) in s.requests {
      assert s.chain[..|s.chain|] == s.chain;
      assert AnswerFrom(s.chain, |s.followers[f]|, SyncText(s.chain[..|s.chain|], from));
    }
  }

  lemma StartNodeKeeps(h: Hasher, s: State, f: nat)
    requires NodesInv(h, s)
    ensures NodesInv(h, Next(h, s, StartNode(f)))
  {
    hide GoodChain, Printable, CommitsOk, RepliesOk;
    if f !in s.followers { FollowerMoves(h, s, f, s.initial, s.requests); }
  }

  // ---- miners ----

  lemma PrintedParses(h: Hasher, c: seq<Block>, line: string)
    requires GoodChain(h, c) && PrintedFrom(c, line)
    ensures exists j :: 0 <= j < |c| && FromCsv(line) == Ok(c[j])
                     && c[j].index == j && BlockHash(h, c[j]) == Ok(HashOf(h, c[j]))
  {
    hide GoodChain, CsvLine, FromCsv, Printable, HashInput, ValidChain;
    var j :| 0 <= j < |c| && Printable(c[j]) && line == CsvLine(c[j]);
    GoodBlock(h, c, j);
  }

  lemma ViewMoves(h: Hasher, s: State, m: nat, next: MinerState)
    requires MinersInv(h, s) && ViewOf(h, s.chain, next.next, next.previous) && AllValidTx(next.pool)
    ensures MinersInv(h, s.(miners := s.miners[m := next]))
  {
    hide ViewOf, AllValidTx, PrintedFrom, FromCsv;
  }

  lemma CommitToMinerKeeps(h: Hasher, s: State, m: nat, line: string)
    requires GoodChain(h, s.chain) && CommitsOk(s.chain, s.commits) && MinersInv(h, s)
    ensures MinersInv(h, Next(h, s, CommitToMiner(m, line)))
  {
    hide GoodChain, PrintedFrom, FromCsv, HashOf, ValidTx, RemoveFrom, LookupsOk;
    if m in s.miners && line in s.commits {
      GoodSize(h, s.chain);
      PrintedParses(h, s.chain, line);
      var b := FromCsv(line).value;
      RemoveKeepsValid(s.miners[m].pool, b.transactions);
      ViewMoves(h, s, m, OnBlockCommit(h, s.miners[m], line));
    }
  }

  lemma BlockReplyKeeps(h: Hasher, s: State, m: nat, text: string)
    requires GoodChain(h, s.chain) && MinersInv(h, s)
    ensures MinersInv(h, Next(h, s, BlockReply(m, text)))
  {
    hide GoodChain, PrintedFrom, FromCsv, HashOf, ValidTx;
    if m in s.miners && (m, text) in s.lookups {
      GoodSize(h, s.chain);
      if PrintedFrom(s.chain, text) { PrintedParses(h, s.chain, text); }
      ViewMoves(h, s, m, OnBlockReply(h, s.miners[m], text));
    }
  }

  lemma HeightReplyKeeps(h: Hasher, s: State, m: nat, height: nat)
    requires GoodChain(h, s.chain) && MinersInv(h, s)
    ensures MinersInv(h, Next(h, s, HeightReply(m, height)))
  {
    hide GoodChain, FromCsv, HashOf, ValidTx, Printable, CsvLine, FindIndex;
    if m in s.miners && (m, height) in s.heights {
      if height == 0 {
        ViewMoves(h, s, m, OnEmptyChain(s.miners[m]));
      } else {
        LookupAnswer(h, s.chain, height - 1);
      }
    }
  }

  lemma LookupAnswer(h: Hasher, c: seq<Block>, i: nat)
    requires GoodChain(h, c) && i < |c|
    ensures PrintedFrom(c, OnQueryIndex(c, i)) || FromCsv(OnQueryIndex(c, i)).Err?
  {
    hide GoodChain, FromCsv, Printable, CsvLine, FindIndex;
    GoodLookup(h, c, i);
    if !Printable(c[i]) {
      assert ',' !in "serialization failed";
      NoCommaNoBlock("serialization failed");
    }
  }

  lemma SubmitKeeps(h: Hasher, s: State, m: nat, payload: string)
    requires MinersInv(h, s)
    ensures MinersInv(h, Next(h, s, Submit(m, payload)))
  {
    hide ViewOf, ValidTx, LookupsOk;
    if m in s.miners {
      ViewMoves(h, s, m, OnSubmit(s.miners[m], payload).1);
    }
  }

  lemma StartMinerKeeps(h: Hasher, s: State, m: nat)
    requires MinersInv(h, s)
    ensures MinersInv(h, Next(h, s, StartMiner(m)))
  {
    hide ValidTx, LookupsOk;
    if m !in s.miners { ViewMoves(h, s, m, START); }
  }

  // ---- every run ----

  lemma NextKeeps(h: Hasher, s: State, step: Step)
    requires Inv(h, s)
    ensures Inv(h, Next(h, s, step))
  {
    hide NodesInv, MinersInv;
    match step
    case Propose(payload) => ProposeKeeps(h, s, payload);
    case DeliverCommit(f, line) => DeliverCommitKeeps(h, s, f, line); Untouched(h, s, step);
    case ServeSync(f, from) => ServeSyncKeeps(h, s, f, from); Untouched(h, s, step);
    case ApplySync(f, text) => ApplySyncKeeps(h, s, f, text); Untouched(h, s, step);
    case StartNode(f) => StartNodeKeeps(h, s, f); Untouched(h, s, step);
    case StartMiner(m) => StartMinerKeeps(h, s, m); Untouched(h, s, step);
    case Submit(m, payload) => SubmitKeeps(h, s, m, payload); Untouched(h, s, step);
    case CommitToMiner(m, line) => NodesFacts(h, s); CommitToMinerKeeps(h, s, m, line); Untouched(h, s, step);
    case AskHeight(m) => AskHeightKeeps(h, s, m); Untouched(h, s, step);
    case HeightReply(m, height) => NodesFacts(h, s); HeightReplyKeeps(h, s, m, height); Untouched(h, s, step);
    case BlockReply(m, text) => NodesFacts(h, s); BlockReplyKeeps(h, s, m, text); Untouched(h, s, step);
  }

  lemma NodesFacts(h: Hasher, s: State)
    requires NodesInv(h, s)
    ensures GoodChain(h, s.chain) && CommitsOk(s.chain, s.commits)
  {
  }

  lemma AskHeightKeeps(h: Hasher, s: State, m: nat)
    requires MinersInv(h, s)
    ensures MinersInv(h, Next(h, s, AskHeight(m)))
  {
    hide ViewOf, AllValidTx, LookupsOk;
  }

  predicate SameNodes(s: State, s': State) {
    && s.initial == s'.initial && s.chain == s'.chain && s.followers == s'.followers
    && s.commits == s'.commits && s.requests == s'.requests && s.replies == s'.replies
  }

  predicate SameMiners(s: State, s': State) {
    s.chain == s'.chain && s.miners == s'.miners && s.heights == s'.heights && s.lookups == s'.lookups
  }

  lemma NodesFrame(h: Hasher, s: State, s': State)
    requires NodesInv(h, s) && SameNodes(s, s')
    ensures NodesInv(h, s')
  {
    hide GoodChain, CommitsOk, RepliesOk, RequestsOk, FollowersAgree, FollowersStarted, Printable;
  }

  lemma MinersFrame(h: Hasher, s: State, s': State)
    requires MinersInv(h, s) && SameMiners(s, s')
    ensures MinersInv(h, s')
  {
    hide MinersCoherent, PoolsValid, HeightsOk, LookupsOk;
  }

  lemma DecisionsFrame(s: State, s': State)
    requires DecisionsOk(s) && s'.decisions == s.decisions && s'.chain == s.chain && s'.initial == s.initial
    ensures DecisionsOk(s')
  {
    hide FromCsv, AcceptedIn, AcceptedBlocks;
    forall p | 0 <= p < |s'.decisions| ensures DecisionOk(s', p) { assert DecisionOk(s, p); }
  }

  predicate NodeStep(step: Step) {
    step.DeliverCommit? || step.ServeSync? || step.ApplySync? || step.StartNode?
  }

  lemma MinerStepRests(h: Hasher, s: State, step: Step)
    requires !step.Propose? && !NodeStep(step)
    ensures SameNodes(s, Next(h, s, step))
  {
    hide OnSubmit, OnBlockCommit, OnQueryIndex, OnBlockReply;
  }

  /** Node steps leave the miners alone, miner steps the nodes, and neither moves node 0's chain. */
  lemma Untouched(h: Hasher, s: State, step: Step)
    requires Inv(h, s) && !step.Propose?
    ensures DecisionsOk(Next(h, s, step))
    ensures if NodeStep(step) then MinersInv(h, Next(h, s, step)) else NodesInv(h, Next(h, s, step))
  {
    hide NodesInv, MinersInv, DecisionsOk;
    hide OnSubmit, OnCommit, OnBlockCommit, OnSyncReply, OnSyncRequest, OnQueryIndex, OnBlockReply;
    var s' := Next(h, s, step);
    DecisionsFrame(s, s');
    if NodeStep(step) { MinersFrame(h, s, s'); } else { NodesFrame(h, s, s'); }
  }

  lemma {:induction false} RunKeeps(h: Hasher, s: State, steps: seq<Step>)
    requires Inv(h, s)
    ensures Inv(h, Run(h, s, steps))
    decreases |steps|
  {
    hide Next, Inv;
    if steps != [] {
      NextKeeps(h, s, steps[0]);
      RunKeeps(h, Next(h, s, steps[0]), steps[1..]);
    }
  }

  lemma InitInv(h: Hasher, initial: seq<Block>)
    requires GoodChain(h, initial)
    ensures Inv(h, Init(initial))
  {
    hide GoodChain;
  }

  // ---- agreement ----

  /** In every reachable state of every run from an empty or valid chain in which syncing is
      safe, each follower holds a prefix of node 0's chain. */
  lemma GoodAgreement(h: Hasher, initial: seq<Block>, steps: seq<Step>)
    requires GoodChain(h, initial)
    ensures var s := Run(h, Init(initial), steps);
            Safe(s) ==> forall f :: f in s.followers ==> s.followers[f] <= s.chain
  {
    hide GoodChain, Run, CommitsOk, RepliesOk, MinersInv, DecisionsOk;
    InitInv(h, initial);
    RunKeeps(h, Init(initial), steps);
  }

  /** Node 0's chain is valid (or empty) in every reachable state, index for position, and is
      what the accepted proposals added to the initial chain, in order. */
  lemma CoordinatorValid(h: Hasher, initial: seq<Block>, steps: seq<Step>)
    requires GoodChain(h, initial)
    ensures var s := Run(h, Init(initial), steps);
            && EmptyOrValid(h, s.chain) && AllParserShaped(s.chain)
            && (forall i :: 0 <= i < |s.chain| ==> s.chain[i].index == i)
            && s.chain == initial + AcceptedBlocks(s.decisions)
  {
    hide Run, CommitsOk, RepliesOk, MinersInv, AcceptedBlocks, AcceptedIn, FromCsv, ValidChain, ParserShaped;
    InitInv(h, initial);
    RunKeeps(h, Init(initial), steps);
    SameInitial(h, Init(initial), steps);
    var s := Run(h, Init(initial), steps);
    forall i | 0 <= i < |s.chain| ensures s.chain[i].index == i { IndexIsPosition(h, s.chain, i); }
  }

  lemma NextInitial(h: Hasher, s: State, step: Step)
    ensures Next(h, s, step).initial == s.initial
  {
    hide OnProposal, OnSubmit, OnCommit, OnBlockCommit, OnSyncReply, OnSyncRequest, OnQueryIndex, OnBlockReply;
  }

  lemma {:induction false} SameInitial(h: Hasher, s: State, steps: seq<Step>)
    ensures Run(h, s, steps).initial == s.initial
    decreases |steps|
  {
    hide Next;
    if steps != [] {
      NextInitial(h, s, steps[0]);
      SameInitial(h, Next(h, s, steps[0]), steps[1..]);
    }
  }

  // ---- one winner per index ----

  lemma {:induction false} AcceptedMonotone(ds: seq<Decision>, p: nat, q: nat)
    requires p < q <= |ds| && ds[p].accepted
    ensures AcceptedIn(ds[..p]) < AcceptedIn(ds[..q])
    decreases q
  {
    assert ds[..q][..q - 1] == ds[..q - 1];
    if p < q - 1 { AcceptedMonotone(ds, p, q - 1); }
  }

  /** Over any interleaving of proposals, two accepted ones never carry the same index, the
      later one carries the larger, and the chain grew by exactly the number accepted. */
  lemma OneWinner(h: Hasher, initial: seq<Block>, steps: seq<Step>, p: nat, q: nat)
    requires GoodChain(h, initial)
    ensures var s := Run(h, Init(initial), steps);
            && |s.chain| == |initial| + AcceptedIn(s.decisions)
            && (p < q < |s.decisions| && s.decisions[p].accepted && s.decisions[q].accepted ==>
                  FromCsv(s.decisions[p].payload).Ok? && FromCsv(s.decisions[q].payload).Ok?
                  && FromCsv(s.decisions[p].payload).value.index < FromCsv(s.decisions[q].payload).value.index)
  {
    hide Run, CommitsOk, RepliesOk, MinersInv, ValidChain, ParserShaped, FromCsv, AcceptedIn, AcceptedBlocks;
    InitInv(h, initial);
    RunKeeps(h, Init(initial), steps);
    SameInitial(h, Init(initial), steps);
    var s := Run(h, Init(initial), steps);
    if p < q < |s.decisions| && s.decisions[p].accepted && s.decisions[q].accepted {
      assert DecisionOk(s, p) && DecisionOk(s, q);
      AcceptedMonotone(s.decisions, p, q);
      IndexIsPosition(h, s.chain, |s.initial| + AcceptedIn(s.decisions[..p]));
      IndexIsPosition(h, s.chain, |s.initial| + AcceptedIn(s.decisions[..q]));
    }
  }

  // ---- miners ----

  /** In every reachable state a miner's view is (0, zeros) or (k, hash of node 0's block
      k - 1) for some k up to node 0's height, and its pool holds valid transactions only. */
  lemma MinerCoherence(h: Hasher, initial: seq<Block>, steps: seq<Step>, m: nat)
    requires GoodChain(h, initial)
    ensures var s := Run(h, Init(initial), steps);
            m in s.miners ==>
              && s.miners[m].next <= |s.chain|
              && s.miners[m].previous ==
                   (if s.miners[m].next == 0 then ZEROS else HashOf(h, s.chain[s.miners[m].next - 1]))
              && forall t :: t in s.miners[m].pool ==> ValidTx(t)
  {
    hide Run, NodesInv, DecisionsOk, GoodChain, ValidTx;
    InitInv(h, initial);
    RunKeeps(h, Init(initial), steps);
  }

  /** The step processes a commit whose block holds the text t. */
  predicate Commits(step: Step, m: nat, t: string) {
    step.CommitToMiner? && step.m == m && FromCsv(step.line).Ok? && t in FromCsv(step.line).value.transactions
  }

  lemma SubmitCounts(m: MinerState, payload: string, t: string)
    ensures multiset(m.pool)[t] <= multiset(OnSubmit(m, payload).1.pool)[t]
  {
    hide Matches;
  }

  lemma CommitCounts(h: Hasher, m: MinerState, line: string, t: string)
    requires FromCsv(line).Err? || t !in FromCsv(line).value.transactions
    ensures multiset(m.pool)[t] <= multiset(OnBlockCommit(h, m, line).pool)[t]
  {
    hide FromCsv, RemoveFrom, HashOf;
    if FromCsv(line).Ok? { RemoveIncludedCounts(m.pool, FromCsv(line).value.transactions, t); }
  }

  /** Only a submission or a commit touches a miner's pool. */
  lemma PoolRests(h: Hasher, s: State, step: Step, m: nat)
    requires m in s.miners && !(step.Submit? && step.m == m) && !(step.CommitToMiner? && step.m == m)
    ensures m in Next(h, s, step).miners && Next(h, s, step).miners[m].pool == s.miners[m].pool
  {
    hide FromCsv, OnProposal, OnCommit, OnSyncReply, OnSyncRequest, OnQueryIndex, HashOf, OnSubmit, OnBlockCommit;
  }

  lemma PoolSubmit(h: Hasher, s: State, m: nat, payload: string, t: string)
    requires m in s.miners
    ensures var n := Next(h, s, Submit(m, payload));
            m in n.miners && multiset(s.miners[m].pool)[t] <= multiset(n.miners[m].pool)[t]
  {
    hide OnSubmit;
    SubmitCounts(s.miners[m], payload, t);
  }

  lemma PoolCommit(h: Hasher, s: State, m: nat, line: string, t: string)
    requires m in s.miners && !Commits(CommitToMiner(m, line), m, t)
    ensures var n := Next(h, s, CommitToMiner(m, line));
            m in n.miners && multiset(s.miners[m].pool)[t] <= multiset(n.miners[m].pool)[t]
  {
    hide OnBlockCommit, FromCsv;
    CommitCounts(h, s.miners[m], line, t);
  }

  lemma PoolStep(h: Hasher, s: State, step: Step, m: nat, t: string)
    requires m in s.miners && !Commits(step, m, t)
    ensures m in Next(h, s, step).miners
    ensures multiset(s.miners[m].pool)[t] <= multiset(Next(h, s, step).miners[m].pool)[t]
  {
    hide Next, Commits;
    if step.Submit? && step.m == m {
      PoolSubmit(h, s, m, step.payload, t);
    } else if step.CommitToMiner? && step.m == m {
      PoolCommit(h, s, m, step.line, t);
    } else {
      PoolRests(h, s, step, m);
    }
  }

  /** A pending transaction stays, copy for copy, until the miner processes a commit that holds
      the same text. */
  lemma {:induction false} PendingStays(h: Hasher, s: State, steps: seq<Step>, m: nat, t: string)
    requires m in s.miners && forall i :: 0 <= i < |steps| ==> !Commits(steps[i], m, t)
    ensures m in Run(h, s, steps).miners
    ensures multiset(s.miners[m].pool)[t] <= multiset(Run(h, s, steps).miners[m].pool)[t]
    decreases |steps|
  {
    hide Next, Commits;
    if steps != [] {
      assert !Commits(steps[0], m, t);
      PoolStep(h, s, steps[0], m, t);
      PendingStays(h, Next(h, s, steps[0]), steps[1..], m, t);
    }
  }

  /** And such a commit, if it was ever broadcast, takes every copy out. */
  lemma CommitClears(h: Hasher, initial: seq<Block>, steps: seq<Step>, m: nat, line: string, t: string)
    requires GoodChain(h, initial)
    ensures var s := Run(h, Init(initial), steps);
            var e := Next(h, s, CommitToMiner(m, line));
            m in s.miners && line in s.commits && Commits(CommitToMiner(m, line), m, t) ==>
              m in e.miners && multiset(e.miners[m].pool)[t] == 0
  {
    hide Run, GoodChain, FromCsv, RemoveFrom, HashOf, PrintedFrom, MinersInv, DecisionsOk, RepliesOk;
    InitInv(h, initial);
    RunKeeps(h, Init(initial), steps);
    var s := Run(h, Init(initial), steps);
    if m in s.miners && line in s.commits && Commits(CommitToMiner(m, line), m, t) {
      PrintedParses(h, s.chain, line);
      RemoveIncludedCounts(s.miners[m].pool, FromCsv(line).value.transactions, t);
    }
  }

  // ---- growth ----

  /** Chains only grow at their end, and messages stay in the network. */
  predicate Grew(s: State, e: State) {
    && s.chain <= e.chain && s.commits <= e.commits && s.requests <= e.requests && s.replies <= e.replies
    && s.heights <= e.heights && s.lookups <= e.lookups && s.miners.Keys <= e.miners.Keys
    && forall f :: f in s.followers ==> f in e.followers && s.followers[f] <= e.followers[f]
  }

  lemma ProposeGrows(h: Hasher, s: State, payload: string)
    ensures s.chain <= OnProposal(h, s.chain, payload).chain
  {
    hide Acceptable, FromCsv, CsvLine, Printable, AppendBlock, Storable;
    if FromCsv(payload).Ok? { AppendExact(s.chain, FromCsv(payload).value); }
  }

  lemma ProposeGrew(h: Hasher, s: State, payload: string)
    ensures Grew(s, Next(h, s, Propose(payload)))
  {
    hide Inv, OnProposal;
    ProposeGrows(h, s, payload);
  }

  lemma DeliverGrew(h: Hasher, s: State, f: nat, line: string)
    ensures Grew(s, Next(h, s, DeliverCommit(f, line)))
  {
    hide OnCommit;
    if f in s.followers { CommitGrows(h, s.followers[f], line); }
  }

  lemma ApplyGrew(h: Hasher, s: State, f: nat, text: string)
    ensures Grew(s, Next(h, s, ApplySync(f, text)))
  {
    hide OnSyncReply;
    if f in s.followers { ReplyGrows(h, s.followers[f], text); }
  }

  lemma QuietGrew(h: Hasher, s: State, step: Step)
    requires !step.Propose? && !step.DeliverCommit? && !step.ApplySync?
    ensures Grew(s, Next(h, s, step))
  {
    hide OnSubmit, OnBlockCommit, OnSyncRequest, OnQueryIndex, OnBlockReply;
  }

  lemma NextGrows(h: Hasher, s: State, step: Step)
    ensures Grew(s, Next(h, s, step))
  {
    hide Inv, Next, Grew;
    match step
    case Propose(payload) => ProposeGrew(h, s, payload);
    case DeliverCommit(f, line) => DeliverGrew(h, s, f, line);
    case ApplySync(f, text) => ApplyGrew(h, s, f, text);
    case _ => QuietGrew(h, s, step);
  }

  lemma ReplyGrows(h: Hasher, c: seq<Block>, text: string)
    ensures c <= OnSyncReply(h, c, text)
  {
    hide ApplyLines, Tokens;
    ApplyGrows(h, c, Tokens(text));
  }

  lemma {:induction false} RunGrows(h: Hasher, s: State, steps: seq<Step>)
    ensures Grew(s, Run(h, s, steps))
    decreases |steps|
  {
    hide Next, Grew;
    GrewTrivially(s);
    if steps != [] {
      NextGrows(h, s, steps[0]);
      RunGrows(h, Next(h, s, steps[0]), steps[1..]);
      GrewFurther(s, Next(h, s, steps[0]), Run(h, s, steps));
    }
  }

  lemma GrewTrivially(s: State)
    ensures Grew(s, s)
  {
  }

  lemma GrewFurther(s: State, t: State, e: State)
    requires Grew(s, t) && Grew(t, e)
    ensures Grew(s, e)
  {
  }

  /** Only a height that a follower had is ever requested for it. */
  lemma NextRequests(h: Hasher, s: State, step: Step)
    requires RequestsOk(s.followers, s.requests)
    ensures RequestsOk(Next(h, s, step).followers, Next(h, s, step).requests)
  {
    hide OnSubmit, OnCommit, OnBlockCommit, OnSyncReply, OnSyncRequest, OnQueryIndex, OnBlockReply, OnProposal;
    NextGrows(h, s, step);
    if step.DeliverCommit? && step.f in s.followers { CommitGrows(h, s.followers[step.f], step.line); }
  }

  lemma {:induction false} RunRequests(h: Hasher, s: State, steps: seq<Step>)
    requires RequestsOk(s.followers, s.requests)
    ensures RequestsOk(Run(h, s, steps).followers, Run(h, s, steps).requests)
    decreases |steps|
  {
    hide Next, RequestsOk;
    if steps != [] {
      NextRequests(h, s, steps[0]);
      RunRequests(h, Next(h, s, steps[0]), steps[1..]);
    }
  }

  /** The steps that touch neither node 0's chain nor a follower that has started. */
  lemma QuietStep(h: Hasher, s: State, step: Step)
    requires !step.Propose? && !step.DeliverCommit? && !step.ApplySync?
    ensures var n := Next(h, s, step);
            && n.chain == s.chain && n.initial == s.initial
            && forall f :: f in n.followers ==> n.followers[f] == if f in s.followers then s.followers[f] else s.initial
  {
    hide OnSubmit, OnCommit, OnBlockCommit, OnSyncReply, OnSyncRequest, OnQueryIndex, OnBlockReply, OnProposal;
  }

  lemma {:induction false} RunConcat(h: Hasher, s: State, a: seq<Step>, b: seq<Step>)
    ensures Run(h, s, a + b) == Run(h, Run(h, s, a), b)
    decreases |a|
  {
    hide Next;
    if a == [] {
      assert a + b == b;
    } else {
      assert (a + b)[1..] == a[1..] + b;
      RunConcat(h, Next(h, s, a[0]), a[1..], b);
    }
  }

  lemma RunCons(h: Hasher, s: State, a: Step, rest: seq<Step>)
    ensures Run(h, s, [a] + rest) == Run(h, Next(h, s, a), rest)
  {
    hide Next;
    assert ([a] + rest)[1..] == rest;
  }
}
