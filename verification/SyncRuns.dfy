/** What one sync exchange achieves over the runs of the protocol, and the follower whose gap is
    too long for any. */
module SyncRuns {
  import opened Text
  import opened Blocks
  import opened ChainFile
  import opened NodeHandlers
  import opened MinerProcess
  import opened Samples
  import opened Protocol
  import opened LoadedRuns
  import opened Divergence

  // ---- recovery ----

  /** Node 0 can send all that a follower may lack. */
  predicate Sendable(s: State) { s.initial != [] || s.chain == [] || Printable(s.chain[0]) }

  lemma AnswerArrives(h: Hasher, s: State, f: nat, from: nat)
    requires (f, from) in s.requests && OnSyncRequest(s.chain, from).Some?
    ensures (f, SyncText(s.chain, from)) in Next(h, s, ServeSync(f, from)).replies
  {
    hide SyncText;
  }

  /** What any steps between node 0's answer and its delivery leave in place. */
  lemma Meanwhile(h: Hasher, s: State, f: nat, from: nat, meanwhile: seq<Step>)
    requires f in s.followers && from <= |s.followers[f]|
    requires (f, from) in s.requests && OnSyncRequest(s.chain, from).Some?
    ensures var t := Run(h, Next(h, s, ServeSync(f, from)), meanwhile);
            && s.chain <= t.chain && s.initial == t.initial
            && f in t.followers && from <= |t.followers[f]|
            && (f, SyncText(s.chain, from)) in t.replies
  {
    hide Run, Next, SyncText, OnSyncRequest;
    var served := Next(h, s, ServeSync(f, from));
    AnswerArrives(h, s, f, from);
    NextGrows(h, s, ServeSync(f, from));
    QuietStep(h, s, ServeSync(f, from));
    RunGrows(h, served, meanwhile);
    SameInitial(h, served, meanwhile);
  }

  /** The answer of an earlier state of node 0, applied to a prefix: nothing is lost. */
  lemma AppliedAnswer(h: Hasher, c: seq<Block>, d: seq<Block>, n: nat, from: nat)
    requires GoodChain(h, c) && d <= c && n <= |c| && from <= |d|
    requires d != [] || n == 0 || Printable(c[0])
    ensures c[..n] <= OnSyncReply(h, d, SyncText(c[..n], from)) <= c
  {
    hide GoodChain, SyncText, OnSyncReply, Printable;
    assert d == c[..|d|];
    SyncCatchesUp(h, c, |d|, n, from);
  }

  lemma AppliedLoaded(h: Hasher, lo: nat, shift: int, c: seq<Block>, d: seq<Block>, n: nat, from: nat)
    requires Grown(h, lo, shift, c) && d <= c && n <= |c| && 0 < lo <= from <= |d|
    ensures c[..n] <= OnSyncReply(h, d, SyncText(c[..n], from)) <= c
  {
    hide Grown, SyncText, OnSyncReply;
    var k := |d|;
    assert d == c[..k];
    SyncAtLast(h, lo, shift, c, d, k, n, from);
    assert c[..k] + c[k..Max(k, n)] == c[..Max(k, n)];
  }

  lemma ApplyNext(h: Hasher, t: State, f: nat, text: string)
    requires f in t.followers && (f, text) in t.replies
    ensures Next(h, t, ApplySync(f, text)) == t.(followers := t.followers[f := OnSyncReply(h, t.followers[f], text)])
  {
    hide OnSyncReply;
  }

  /** The end of an exchange: the answer of s applied in a later state t. */
  function Applied(h: Hasher, s: State, t: State, f: nat, from: nat): State {
    Next(h, t, ApplySync(f, SyncText(s.chain, from)))
  }

  /** The exchange of a node that started from a loaded file. */
  lemma LoadedRecovery(h: Hasher, s: State, t: State, f: nat, from: nat)
    requires s.initial == t.initial != [] && s.chain <= t.chain
    requires LoadedBody(h, s) && LoadedBody(h, t) && !Wrong(h, t.initial, t.chain)
    requires (f, from) in s.requests && f in t.followers && from <= |t.followers[f]|
    ensures s.chain <= OnSyncReply(h, t.followers[f], SyncText(s.chain, from)) <= t.chain
  {
    hide Grown, NewCommits, GoodReplies, Stop, SyncText, OnSyncReply, Wrong;
    if Wrong(h, s.initial, s.chain) { WrongGrows(h, s.initial, s.chain, t.chain); }
    assert t.chain[..|s.chain|] == s.chain;
    AppliedLoaded(h, |s.initial|, Shift(s.initial), t.chain, t.followers[f], |s.chain|, from);
  }

  /** The exchange of a node that started empty while node 0's genesis block can be printed. */
  lemma PrintedRecovery(h: Hasher, s: State, t: State, f: nat, from: nat)
    requires Inv(h, t) && s.chain <= t.chain && s.chain != [] && Printable(s.chain[0])
    requires f in t.followers && from <= |t.followers[f]|
    ensures s.chain <= OnSyncReply(h, t.followers[f], SyncText(s.chain, from)) <= t.chain
  {
    hide GoodChain, Printable, CommitsOk, RepliesOk, RequestsOk, MinersInv, DecisionsOk, SyncText, OnSyncReply;
    assert t.chain[..|s.chain|] == s.chain && Safe(t);
    AppliedAnswer(h, t.chain, t.followers[f], |s.chain|, from);
  }

  /** The exchange that cannot succeed. */
  lemma LostRecovery(h: Hasher, s: State, t: State, f: nat, text: string)
    requires Inv(h, t) && GenesisMissing(t) && s.chain <= t.chain && s.initial == t.initial && !Sendable(s)
    requires f in t.followers && (f, text) in t.replies
    ensures !(s.chain <= OnSyncReply(h, t.followers[f], text))
  {
    hide Inv, OnSyncReply, GenesisMissing, Sendable, Next;
    var e := Next(h, t, ApplySync(f, text));
    SyncMissing(h, t, f, text);
    ApplyNext(h, t, f, text);
    StillMissing(s, e, f);
  }

  lemma EmptyRun(h: Hasher, steps: seq<Step>)
    ensures Inv(h, Run(h, Init([]), steps)) && GenesisMissing(Run(h, Init([]), steps))
  {
    hide Run, Inv, GenesisMissing;
    EmptyIsGood(h);
    InitInv(h, []);
    RunKeeps(h, Init([]), steps);
    GenesisNeverArrives(h, steps);
  }

  /** The state after an exchange's first half is one of a run from the same start. */
  lemma OneRun(h: Hasher, s0: State, before: seq<Step>, step: Step, meanwhile: seq<Step>)
    ensures Run(h, Next(h, Run(h, s0, before), step), meanwhile) == Run(h, s0, before + ([step] + meanwhile))
  {
    hide Run, Next;
    RunConcat(h, s0, before, [step] + meanwhile);
    RunCons(h, Run(h, s0, before), step, meanwhile);
  }

  /** Node 0 answers a request with a text that fits in one message, any steps at all happen,
      and the answer is applied. Then the follower holds all that node 0 held when it answered,
      exactly if node 0 could send it: the nodes started from a loaded chain, or node 0 was
      empty, or its genesis block can be printed. From a file this takes that no commit was
      accepted at the wrong height. */
  lemma Recovery(h: Hasher, initial: seq<Block>, before: seq<Step>, f: nat, from: nat, meanwhile: seq<Step>)
    requires Startable(initial)
    ensures var s := Run(h, Init(initial), before);
            var t := Run(h, Next(h, s, ServeSync(f, from)), meanwhile);
            var e := Applied(h, s, t, f, from);
            (f, from) in s.requests && OnSyncRequest(s.chain, from).Some?
            && (initial == [] || (NoWrap(initial, t.chain) && !Wrong(h, initial, t.chain))) ==>
              && f in e.followers
              && (s.chain <= e.followers[f] <==> Sendable(s))
              && (s.chain != [] && Sendable(s) ==> e.followers[f] <= e.chain)
  {
    hide GoodChain, Run, Inv, LoadedInv, SyncText, OnSyncRequest, Next, OnSyncReply, GenesisMissing, Printable;
    hide Startable, Wrong, NoWrap;
    var s := Run(h, Init(initial), before);
    if (f, from) in s.requests && OnSyncRequest(s.chain, from).Some? {
      var t := Run(h, Next(h, s, ServeSync(f, from)), meanwhile);
      var all := before + ([ServeSync(f, from)] + meanwhile);
      OneRun(h, Init(initial), before, ServeSync(f, from), meanwhile);
      SameInitial(h, Init(initial), before);
      InitRequests(initial);
      RunRequests(h, Init(initial), before);
      Meanwhile(h, s, f, from, meanwhile);
      ApplyNext(h, t, f, SyncText(s.chain, from));
      if initial != [] {
        if NoWrap(initial, t.chain) && !Wrong(h, initial, t.chain) {
          LoadedState(h, initial, before, t.chain);
          LoadedState(h, initial, all, t.chain);
          LoadedRecovery(h, s, t, f, from);
        }
      } else {
        EmptyRun(h, all);
        if !Sendable(s) {
          LostRecovery(h, s, t, f, SyncText(s.chain, from));
        } else if s.chain != [] {
          PrintedRecovery(h, s, t, f, from);
        }
      }
    }
  }

  lemma LoadedState(h: Hasher, initial: seq<Block>, steps: seq<Step>, c: seq<Block>)
    requires Startable(initial) && initial != [] && Run(h, Init(initial), steps).chain <= c && NoWrap(initial, c)
    ensures var s := Run(h, Init(initial), steps); s.initial == initial && LoadedBody(h, s)
  {
    hide Run, LoadedBody, Startable;
    InitLoaded(h, initial);
    RunLoaded(h, Init(initial), steps);
    SameInitial(h, Init(initial), steps);
  }

  lemma InitRequests(initial: seq<Block>)
    ensures RequestsOk(Init(initial).followers, Init(initial).requests)
  {
  }

  lemma StillMissing(s: State, e: State, f: nat)
    requires !Sendable(s) && s.chain <= e.chain && s.initial == e.initial && f in e.followers && GenesisMissing(e)
    ensures !(s.chain <= e.followers[f])
  {
    hide Printable;
    assert e.chain[..1] == s.chain[..1];
  }

  // ---- a gap that no answer covers ----

  /** Follower f is at height k, node 0 cannot answer a request from there, and none of the
      answers it ever sent to f adds anything. */
  predicate Stuck(h: Hasher, s: State, f: nat, k: nat) {
    && f in s.followers && |s.followers[f]| == k && OnSyncRequest(s.chain, k) == None
    && forall r :: r in s.replies && r.0 == f ==> OnSyncReply(h, s.followers[f], r.1) == s.followers[f]
  }

  /** An answer that node 0 computed when it had at most as many blocks as the follower has now
      adds nothing, so a follower that recovered is stuck once its gap cannot be answered. */
  lemma OldAnswerAddsNothing(h: Hasher, c: seq<Block>, k: nat, n: nat, from: nat)
    requires GoodChain(h, c) && n <= k <= |c| && from <= k
    ensures OnSyncReply(h, c[..k], SyncText(c[..n], from)) == c[..k]
  {
    hide GoodChain, SyncText, OnSyncReply, Printable;
    SyncCatchesUp(h, c, k, n, from);
  }

  /** The same for any follower whose last block is block p - 1. */
  lemma OldAnswerAtLast(h: Hasher, lo: nat, shift: int, c: seq<Block>, d: seq<Block>, p: nat, n: nat, from: nat)
    requires Grown(h, lo, shift, c) && 0 < p <= |c| && n <= p && lo <= from <= p
    requires d != [] && |d| <= p && d[|d| - 1] == c[p - 1]
    ensures OnSyncReply(h, d, SyncText(c[..n], from)) == d
  {
    hide Grown, SyncText, OnSyncReply;
    SyncAtLast(h, lo, shift, c, d, p, n, from);
    assert d + c[p..p] == d;
  }

  /** A commit of the very next block is delivered to f. */
  predicate NextCommit(step: Step, f: nat, k: nat) {
    step.DeliverCommit? && step.f == f && FromCsv(step.line).Ok? && FromCsv(step.line).value.index == k
  }

  lemma OtherCommit(h: Hasher, d: seq<Block>, line: string)
    requires FromCsv(line).Err? || FromCsv(line).value.index != |d|
    ensures OnCommit(h, d, line).1 == d
  {
    hide FromCsv;
  }

  /** Node 0 sends f nothing new. */
  lemma StuckReplies(h: Hasher, s: State, step: Step, f: nat, k: nat)
    requires RequestsOk(s.followers, s.requests) && Stuck(h, s, f, k)
    ensures forall r :: r in Next(h, s, step).replies && r.0 == f ==> r in s.replies
  {
    hide OnSyncRequest, OnSubmit, OnCommit, OnBlockCommit, OnSyncReply, OnQueryIndex, OnBlockReply, OnProposal;
    if step.ServeSync? && step.f == f && (f, step.from) in s.requests {
      UnanswerableStays(s.chain, k, s.chain, step.from);
    }
  }

  lemma StuckFollower(h: Hasher, s: State, step: Step, f: nat, k: nat)
    requires Stuck(h, s, f, k) && !NextCommit(step, f, k)
    ensures var n := Next(h, s, step); f in n.followers && n.followers[f] == s.followers[f]
  {
    hide FromCsv, OnSyncRequest, OnSubmit, OnCommit, OnBlockCommit, OnSyncReply, OnQueryIndex, OnBlockReply, OnProposal;
    if step.DeliverCommit? && step.f == f { OtherCommit(h, s.followers[f], step.line); }
  }

  lemma NextStuck(h: Hasher, s: State, step: Step, f: nat, k: nat)
    requires RequestsOk(s.followers, s.requests) && Stuck(h, s, f, k) && !NextCommit(step, f, k)
    ensures var n := Next(h, s, step); Stuck(h, n, f, k) && n.followers[f] == s.followers[f]
  {
    hide RequestsOk, Next, NextCommit, OnSyncRequest, OnSyncReply;
    StuckReplies(h, s, step, f, k);
    StuckFollower(h, s, step, f, k);
    NextGrows(h, s, step);
    UnanswerableStays(s.chain, k, Next(h, s, step).chain, k);
  }

  lemma {:induction false} RunStuck(h: Hasher, s: State, steps: seq<Step>, f: nat, k: nat)
    requires RequestsOk(s.followers, s.requests) && Stuck(h, s, f, k)
    requires forall i :: 0 <= i < |steps| ==> !NextCommit(steps[i], f, k)
    ensures var e := Run(h, s, steps);
            f in s.followers && Stuck(h, e, f, k) && f in e.followers && e.followers[f] == s.followers[f]
    decreases |steps|
  {
    hide RequestsOk, Next, NextCommit, Stuck;
    StuckStarted(h, s, f, k);
    if steps != [] {
      NextRequests(h, s, steps[0]);
      NextStuck(h, s, steps[0], f, k);
      RunStuck(h, Next(h, s, steps[0]), steps[1..], f, k);
    }
  }

  lemma StuckStarted(h: Hasher, s: State, f: nat, k: nat)
    requires Stuck(h, s, f, k)
    ensures f in s.followers
  {
    hide OnSyncRequest, OnSyncReply;
  }

  /** Whatever the nodes start from, a follower whose gap node 0 cannot answer in one message, and
      to which no earlier answer adds anything, moves only by the commit of the very next block,
      whatever else happens and however far node 0 gets. */
  lemma StuckUntilNextCommit(h: Hasher, initial: seq<Block>, before: seq<Step>, f: nat, k: nat, steps: seq<Step>)
    ensures var s := Run(h, Init(initial), before);
            var e := Run(h, s, steps);
            Stuck(h, s, f, k) ==>
              || (Stuck(h, e, f, k) && e.followers[f] == s.followers[f])
              || exists i :: 0 <= i < |steps| && NextCommit(steps[i], f, k)
  {
    hide Run, NextCommit, OnSyncRequest, OnSyncReply;
    InitRequests(initial);
    RunRequests(h, Init(initial), before);
    var s := Run(h, Init(initial), before);
    if Stuck(h, s, f, k) && forall i :: 0 <= i < |steps| ==> !NextCommit(steps[i], f, k) {
      RunStuck(h, s, steps, f, k);
    }
  }

  // ---- a follower that recovered and is stuck ----

  /** Follower 0 recovers to two blocks, and node 0 goes on to eighteen. */
  function StuckSteps(c: seq<Block>): seq<Step>
    requires |c| >= 2
  {
    DivergingSteps(c) + Proposals(c[2..])
  }

  lemma StuckRun(h: Hasher, c: seq<Block>)
    requires GoodChain(h, c) && |c| >= 2 && Printable(c[0]) && OnSyncRequest(c, 2) == None
    ensures var s := Run(h, Init([]), StuckSteps(c));
            s.chain == c && (0, SyncText(c[..2], 0)) in s.replies && Stuck(h, s, 0, 2)
  {
    hide GoodChain, Printable, Run, CsvLine, SyncText, DivergingSteps, Proposals, OnSyncRequest, OnSyncReply;
    FirstCatchUp(h, c);
    var mid := Run(h, Init([]), DivergingSteps(c));
    RunConcat(h, Init([]), DivergingSteps(c), Proposals(c[2..]));
    ProposeRest(h, mid, c, 2);
    assert c[..2][..2] == c[..2];
    OldAnswerAddsNothing(h, c, 2, 2, 0);
  }

  /** The hypothesis is met: for every hash function some run leaves a follower stuck that node 0
      has answered before. */
  lemma StuckReachable(h: Hasher)
    ensures exists steps :: Stuck(h, Run(h, Init([]), steps), 0, 2)
                         && exists r :: r in Run(h, Init([]), steps).replies && r.0 == 0
  {
    hide GoodChain, Run, OnSyncRequest, OnSyncReply, SyncText, Stuck, StuckSteps, Printable;
    SixteenMayNotFit(h, 2);
    var c :| GoodChain(h, c) && |c| == 18 && AllPrintable(c) && OnSyncRequest(c, 2) == None;
    assert Printable(c[0]);
    StuckRun(h, c);
    var s := Run(h, Init([]), StuckSteps(c));
    assert (0, SyncText(c[..2], 0)) in s.replies && (0, SyncText(c[..2], 0)).0 == 0;
  }
}
