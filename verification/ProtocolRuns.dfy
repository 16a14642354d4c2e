/** Particular runs of publication: where more heads than a commit may have parents lead, and what a retry does to a
    device that has pulled in between. */
module ProtocolRuns {
  import opened Basics
  import opened CommitStore
  import opened CommitRuns
  import opened Protocol
  import opened ProtocolTheorems
  import C = CommitRecord
  import U = Publishing

  lemma {:induction false} ExecuteIsSafe(s: System, steps: seq<Step>)
    requires Safe(s)
    ensures Safe(Execute(s, steps))
    decreases |steps|
  {
    if steps != [] {
      var before := Execute(s, steps[..|steps| - 1]);
      ExecuteIsSafe(s, steps[..|steps| - 1]);
      if Enabled(before, steps[|steps| - 1]) { StepIsSafe(before, steps[|steps| - 1]); }
    }
  }

  // ----- too many heads

  /** Nothing is prepared, and the heads are more than a commit may have parents. */
  ghost predicate Crowded(s: System, d: Id) {
    d in s.clients && s.clients[d].prepared.None? && |s.clients[d].heads| > C.MAX_COMMIT_PARENTS
  }

  /** A pull of the device that reports few enough heads. */
  predicate Relieves(step: Step, d: Id) {
    step.Pull? && step.device == d && |step.heads| <= C.MAX_COMMIT_PARENTS
  }

  /** A device with more than 16 heads and nothing prepared can prepare nothing, and so publish nothing, until one of
      its pulls reports at most 16. */
  lemma {:induction false} CrowdedUntilRelieved(s: System, d: Id, steps: seq<Step>)
    requires Crowded(s, d) && forall step :: step in steps ==> !Relieves(step, d)
    ensures var t := Execute(s, steps);
            && Crowded(t, d) && t.clients[d].deviceSequence == s.clients[d].deviceSequence
            && forall step: Step :: step.Prepare? && step.device == d ==> !Enabled(t, step)
    decreases |steps|
  {
    if steps != [] {
      var init, last := steps[..|steps| - 1], steps[|steps| - 1];
      assert steps == init + [last];
      CrowdedUntilRelieved(s, d, init);
      assert !Relieves(last, d);
    }
  }

  /** Every device is idle or has pulled too many heads to publish them. */
  ghost predicate Congested(s: System) {
    && Safe(s) && |s.db.heads| > C.MAX_COMMIT_PARENTS
    && forall d {:trigger Stuck(s, d)} :: d in s.clients ==> Stuck(s, d)
  }

  ghost predicate Stuck(s: System, d: Id)
    requires d in s.clients
  {
    s.clients[d].prepared.None? && (s.clients[d].pulled ==> |s.clients[d].heads| > C.MAX_COMMIT_PARENTS)
  }

  /** A pull reports the server's heads. */
  predicate Honest(s: System, step: Step) {
    step.Pull? ==> step.heads == s.db.heads
  }

  lemma NothingIsPublished(s: System)
    requires Congested(s)
    ensures forall step: Step :: step.Prepare? || step.Send? || step.Acknowledge? ==> !Enabled(s, step)
  {
    forall step: Step | step.Prepare? || step.Send? || step.Acknowledge? ensures !Enabled(s, step) {
      var d := if step.Acknowledge? then step.reply.device else step.device;
      assert d in s.clients ==> Stuck(s, d);
    }
  }

  lemma CongestedStep(s: System, step: Step)
    requires Congested(s) && Enabled(s, step) && Honest(s, step)
    ensures Congested(Next(s, step)) && Next(s, step).db.commits == s.db.commits
  {
    StepIsSafe(s, step);
    var t := Next(s, step);
    NothingIsPublished(s);
    if step.Deliver? {
      var m := step.request;
      assert RequestOk(s, m);
      assert m.deviceId in s.clients ==> Stuck(s, m.deviceId);
      AcceptExactly(s.db, s.vault, m.deviceId, m);
    }
    forall d {:trigger Stuck(t, d)} | d in t.clients ensures Stuck(t, d) { assert Stuck(s, d); }
  }

  /** Once the server has more than 16 heads and no publication is under way, no commit is ever stored again, whatever
      the devices do, as long as pulls report the server's heads. */
  lemma {:induction false} CongestedForever(s: System, steps: seq<Step>)
    requires Congested(s)
    requires forall n {:trigger steps[n]} :: 0 <= n < |steps| ==> Honest(Execute(s, steps[..n]), steps[n])
    ensures Congested(Execute(s, steps)) && Execute(s, steps).db.commits == s.db.commits
    decreases |steps|
  {
    if steps != [] {
      var init, last := steps[..|steps| - 1], steps[|steps| - 1];
      forall n {:trigger init[n]} | 0 <= n < |init| ensures Honest(Execute(s, init[..n]), init[n]) {
        assert init[..n] == steps[..n] && init[n] == steps[n];
      }
      CongestedForever(s, init);
      assert Honest(Execute(s, init), steps[|init|]);
      if Enabled(Execute(s, init), last) { CongestedStep(Execute(s, init), last); }
    }
  }

  // ----- publications one after another

  lemma {:induction false} ListingExists(ids: set<Id>) returns (s: seq<Id>)
    ensures Lists(s, ids)
    decreases |ids|
  {
    if ids == {} { return []; }
    var least, greatest := Extremes(ids);
    var rest := ListingExists(ids - {least});
    LeastInFront(least, rest, ids);
    s := [least] + rest;
  }

  lemma LeastInFront(least: Id, rest: seq<Id>, ids: set<Id>)
    requires least in ids && (forall y :: y in ids ==> least <= y) && Lists(rest, ids - {least})
    ensures Lists([least] + rest, ids)
  {
    forall j | 0 <= j < |rest| ensures least < rest[j] { assert rest[j] in ToSet(rest); }
    assert ToSet([least] + rest) == {least} + ToSet(rest);
  }

  /** The device has pulled, and the server will take a commit of that identifier from it. */
  ghost predicate MayPublish(s: System, d: Id, id: Id) {
    && d in s.clients && s.clients[d].pulled && s.clients[d].prepared.None?
    && |s.clients[d].heads| <= C.MAX_COMMIT_PARENTS
    && d in s.db.devices && s.db.devices[d]
    && |s.db.commits| < MAX_COMMITS_PER_VAULT && |s.db.heads| < MAX_HEADS
    && (s.db.commits == map[] <==> s.clients[d].heads == {})
    && id !in s.db.commits && forall x :: !Holds(s, x, id)
  }

  ghost predicate Kept(before: Db, after: Db) {
    forall id :: id in before.commits ==> id in after.commits && after.commits[id] == before.commits[id]
  }

  /** `t` is `s` after the device's next commit was stored, before it hears of it. */
  ghost predicate Delivered(s: System, d: Id, id: Id, p: SignedCommit, t: System) {
    && Safe(t) && t.vault == s.vault && d in s.clients
    && p.commitId == id && p.deviceId == d && p.body.logicalTimestamp == s.clients[d].lamport + 1
    && t.clients == s.clients[d := s.clients[d].(prepared := Some(p), pulled := false)]
    && t.db.devices == s.db.devices && t.db.heads == s.db.heads - s.clients[d].heads + {id}
    && t.db.commits.Keys == s.db.commits.Keys + {id} && Stored(t.db, p) && Kept(s.db, t.db)
    && Reply(d, p, t.db.heads) in t.replies
  }

  lemma Accepted(s: System, d: Id, p: SignedCommit)
    requires Safe(s) && d in s.clients && s.clients[d].prepared == Some(p) && !Blocked(s, d, p)
    requires p.commitId !in s.db.commits
    ensures Added(s.db, p, Accept(s.db, s.vault, d, p))
  {
    RetrySucceedsExactly(s, d);
    AcceptedIsAdded(s.db, s.vault, d, p);
  }

  lemma AcceptedIsAdded(db: Db, vault: Id, d: Id, p: SignedCommit)
    requires Inv(db) && Accept(db, vault, d, p).reply.Ok? && p.commitId !in db.commits
    ensures Added(db, p, Accept(db, vault, d, p))
  {
    AcceptExactly(db, vault, d, p);
    InsertedIsAdded(db, p, ParentGeneration(db, p.parents), Accept(db, vault, d, p));
  }

  lemma InsertedIsAdded(db: Db, p: SignedCommit, generation: nat, out: Outcome)
    requires out.db == Inserted(db, p, generation) && out.reply == Ok(out.db.heads) && p.commitId !in db.commits
    ensures Added(db, p, out)
  {}

  /** The commit is the one new row, and the reply names the heads. */
  ghost predicate Added(db: Db, p: SignedCommit, out: Outcome) {
    && out.reply == Ok(out.db.heads) && out.db.devices == db.devices
    && out.db.heads == db.heads - ToSet(p.parents) + {p.commitId}
    && out.db.commits.Keys == db.commits.Keys + {p.commitId} && Stored(out.db, p) && Kept(db, out.db)
  }

  /** The step that prepares the commit `p`, which the server will accept. */
  ghost predicate Prepares(s: System, d: Id, id: Id, step: Step, p: SignedCommit) {
    && d in s.clients && step.Prepare? && step.device == d && Enabled(s, step) && p == PreparedCommit(s, step)
    && p.commitId == id && ToSet(p.parents) == s.clients[d].heads
    && Execute(s, [step]) == s.(clients := s.clients[d := s.clients[d].(prepared := Some(p), pulled := false)])
    && Safe(Execute(s, [step])) && !Blocked(Execute(s, [step]), d, p)
  }

  lemma PreparesNext(s: System, d: Id, id: Id) returns (step: Step, p: SignedCommit)
    requires Safe(s) && MayPublish(s, d, id)
    ensures Prepares(s, d, id, step, p)
  {
    var parents := ListingExists(s.clients[d].heads);
    step := Prepare(d, parents, 0, id, 0);
    p := PreparedCommit(s, step);
    assert CollisionFree(s, p) by {
      forall x | x in s.clients && s.clients[x].prepared.Some? ensures s.clients[x].prepared.value.commitId != id {
        assert !Holds(s, x, id);
      }
    }
    U.AfterPrepare(s, d, p, step);
    StepIsSafe(s, step);
    NotBlocked(s, d, id, p);
  }

  lemma Delivers(s: System, d: Id, id: Id) returns (steps: seq<Step>, p: SignedCommit)
    requires Safe(s) && MayPublish(s, d, id)
    ensures Delivered(s, d, id, p, Execute(s, steps))
  {
    var step;
    step, p := PreparesNext(s, d, id);
    var ready, sent := Execute(s, [step]), [Send(d), Deliver(p)];
    ReachesServer(ready, d, p);
    U.ExecuteConcat(s, [step], sent);
    steps := [step] + sent;
  }

  lemma ReachesServer(s: System, d: Id, p: SignedCommit)
    requires Safe(s) && d in s.clients && s.clients[d].prepared == Some(p) && p.deviceId == d
    requires !Blocked(s, d, p) && p.commitId !in s.db.commits
    ensures var t := Execute(s, [Send(d), Deliver(p)]);
            && Safe(t) && t.vault == s.vault && t.clients == s.clients[d := s.clients[d].(pulled := false)]
            && t.db.devices == s.db.devices && t.db.heads == s.db.heads - ToSet(p.parents) + {p.commitId}
            && t.db.commits.Keys == s.db.commits.Keys + {p.commitId} && Stored(t.db, p) && Kept(s.db, t.db)
            && Reply(d, p, t.db.heads) in t.replies
  {
    Accepted(s, d, p);
    U.AfterDeliver(s, d, p);
    ExecuteIsSafe(s, [Send(d), Deliver(p)]);
  }

  lemma NotBlocked(s: System, d: Id, id: Id, p: SignedCommit)
    requires MayPublish(s, d, id) && p.commitId == id && ToSet(p.parents) == s.clients[d].heads
    ensures !Blocked(s.(clients := s.clients[d := s.clients[d].(prepared := Some(p), pulled := false)]), d, p)
  {
    assert p.parents == [] <==> s.clients[d].heads == {} by {
      if p.parents != [] { assert p.parents[0] in ToSet(p.parents); }
    }
    var after := s.db.heads - ToSet(p.parents) + {p.commitId};
    SubsetSize(after, s.db.heads + {p.commitId});
  }

  /** `t` is `s` after the device's next commit was stored and acknowledged. */
  ghost predicate Published(s: System, d: Id, id: Id, t: System) {
    && t.vault == s.vault && d in s.clients
    && t.db.devices == s.db.devices && t.db.heads == s.db.heads - s.clients[d].heads + {id}
    && t.db.commits.Keys == s.db.commits.Keys + {id}
    && t.clients.Keys == s.clients.Keys && t.clients == s.clients[d := t.clients[d]]
    && t.clients[d].prepared.None? && !t.clients[d].pulled && t.clients[d].lamport == s.clients[d].lamport + 1
  }

  lemma Publishes(s: System, d: Id, id: Id) returns (steps: seq<Step>)
    requires Safe(s) && MayPublish(s, d, id)
    ensures Safe(Execute(s, steps)) && Published(s, d, id, Execute(s, steps))
  {
    var sent, p := Delivers(s, d, id);
    var t := Execute(s, sent);
    U.ExecuteSnoc(s, sent, Acknowledge(Reply(d, p, t.db.heads)));
    steps := sent + [Acknowledge(Reply(d, p, t.db.heads))];
    ExecuteIsSafe(s, steps);
  }

  /** A pull that learns everything the server has. */
  function FullPull(s: System, d: Id): Step {
    Pull(d, s.db.commits.Keys, s.db.heads)
  }

  lemma Pulls(s: System, d: Id)
    requires Safe(s) && d in s.clients
    ensures Enabled(s, FullPull(s, d)) && Safe(Next(s, FullPull(s, d)))
    ensures var t := Next(s, FullPull(s, d));
            && t == s.(clients := s.clients[d := t.clients[d]]) && t.clients.Keys == s.clients.Keys
            && t.clients[d].pulled && t.clients[d].heads == s.db.heads && t.clients[d].prepared == s.clients[d].prepared
            && forall id :: id in s.db.commits && s.db.heads != {} ==> t.clients[d].lamport >= Timestamp(s.db, id)
  {
    assert ClientOk(s, d);
    StepIsSafe(s, FullPull(s, d));
  }

  // ----- many heads from one state

  function Devices(n: nat): (devices: set<Id>)
    ensures forall d: Id :: d in devices <==> d <= n
  {
    if n == 0 then {0} else Devices(n - 1) + {n}
  }

  ghost predicate AllActive(s: System) {
    forall d :: d in s.clients ==> d in s.db.devices && s.db.devices[d]
  }

  ghost predicate Gathered(s: System, n: nat, k: nat, m: nat) {
    Safe(s) && Shaped(s, n, k, m)
  }

  /** Device `n` has published the root, commit 0; the devices from `k` to below `m` have pulled it, and those below `k`
      have published a child of it each. */
  ghost predicate Shaped(s: System, n: nat, k: nat, m: nat) {
    && s.clients.Keys == Devices(n) && AllActive(s)
    && (forall d :: d in s.clients ==> Idle(s, d, k, m))
    && |s.db.commits.Keys| == k + 1 && (forall id: Id :: id in s.db.commits ==> id <= k)
    && s.db.heads <= s.db.commits.Keys
    && (if k == 0 then s.db.heads == {0} else |s.db.heads| == k && 0 !in s.db.heads)
  }

  ghost predicate Idle(s: System, d: Id, k: nat, m: nat) {
    && d in s.clients && s.clients[d].prepared.None? && s.clients[d].pulled == (k <= d < m)
    && (k <= d < m ==> s.clients[d].heads == {0})
  }

  lemma {:induction false} Registers(vault: Id, n: nat, m: nat) returns (steps: seq<Step>)
    ensures var s := Execute(Start(vault, Devices(n)), steps);
            && s.(db := EmptyDb) == Start(vault, Devices(n))
            && s.db.commits == map[] && s.db.heads == {}
            && forall d: Id :: d < m ==> d in s.db.devices && s.db.devices[d]
  {
    steps := [];
    if m > 0 {
      var init := Registers(vault, n, m - 1);
      U.ExecuteSnoc(Start(vault, Devices(n)), init, ServerEvent(Register(m - 1)));
      steps := init + [ServerEvent(Register(m - 1))];
    }
  }

  lemma RootIsPublished(vault: Id, n: nat) returns (steps: seq<Step>)
    ensures Gathered(Execute(Start(vault, Devices(n)), steps), n, 0, 0)
  {
    var start := Start(vault, Devices(n));
    var registered := Registers(vault, n, n + 1);
    StartIsSafe(vault, Devices(n));
    var s := Execute(start, registered);
    ExecuteIsSafe(start, registered);
    Pulls(s, n);
    var pulled := registered + [FullPull(s, n)];
    U.ExecuteSnoc(start, registered, FullPull(s, n));
    var t := Execute(start, pulled);
    var rest := Publishes(t, n, 0);
    U.ExecuteConcat(start, pulled, rest);
    steps := pulled + rest;
    var u := Execute(start, steps);
    assert u.db.commits.Keys == {0} && |u.db.commits.Keys| == |u.db.commits|;
    forall d | d in u.clients ensures Idle(u, d, 0, 0) { assert d in start.clients; }
  }

  lemma OneMorePulls(start: System, before: seq<Step>, n: nat, m: nat) returns (steps: seq<Step>)
    requires Gathered(Execute(start, before), n, 0, m) && m < n
    ensures Gathered(Execute(start, steps), n, 0, m + 1)
  {
    var s := Execute(start, before);
    assert Idle(s, m, 0, m);
    Pulls(s, m);
    U.ExecuteSnoc(start, before, FullPull(s, m));
    steps := before + [FullPull(s, m)];
    var t := Execute(start, steps);
    forall d | d in t.clients ensures Idle(t, d, 0, m + 1) { assert Idle(s, d, 0, m); }
  }

  lemma OneMorePublishes(start: System, before: seq<Step>, n: nat, k: nat) returns (steps: seq<Step>)
    requires Gathered(Execute(start, before), n, k, n) && k < n <= MAX_HEADS
    ensures Gathered(Execute(start, steps), n, k + 1, n)
  {
    var s := Execute(start, before);
    MayPublishNext(s, n, k);
    var rest := Publishes(s, k, k + 1);
    U.ExecuteConcat(start, before, rest);
    steps := before + rest;
    StillShaped(s, Execute(start, steps), n, k);
  }

  lemma MayPublishNext(s: System, n: nat, k: nat)
    requires Gathered(s, n, k, n) && k < n <= MAX_HEADS
    ensures MayPublish(s, k, k + 1)
  {
    assert Idle(s, k, k, n) && |s.db.commits| == |s.db.commits.Keys|;
    forall x {:trigger Holds(s, x, k + 1)} ensures !Holds(s, x, k + 1) {
      assert x in s.clients ==> Idle(s, x, k, n);
    }
  }

  lemma StillShaped(s: System, t: System, n: nat, k: nat)
    requires Shaped(s, n, k, n) && k < n && Published(s, k, k + 1, t)
    ensures Shaped(t, n, k + 1, n)
  {
    assert Idle(s, k, k, n);
    assert k + 1 !in s.db.commits.Keys;
    forall d | d in t.clients ensures Idle(t, d, k + 1, n) { assert Idle(s, d, k, n); }
    HeadsGrow(s, t, k);
  }

  lemma HeadsGrow(s: System, t: System, k: nat)
    requires if k == 0 then s.db.heads == {0} else |s.db.heads| == k && 0 !in s.db.heads
    requires t.db.heads == s.db.heads - {0} + {k + 1} && k + 1 !in s.db.heads
    ensures |t.db.heads| == k + 1 && 0 !in t.db.heads
  {}

  lemma {:induction false} AllPull(vault: Id, n: nat, m: nat) returns (steps: seq<Step>)
    requires m <= n
    ensures Gathered(Execute(Start(vault, Devices(n)), steps), n, 0, m)
  {
    if m == 0 {
      steps := RootIsPublished(vault, n);
    } else {
      steps := AllPull(vault, n, m - 1);
      steps := OneMorePulls(Start(vault, Devices(n)), steps, n, m - 1);
    }
  }

  lemma {:induction false} AllPublish(vault: Id, n: nat, k: nat) returns (steps: seq<Step>)
    requires k <= n <= MAX_HEADS
    ensures Gathered(Execute(Start(vault, Devices(n)), steps), n, k, n)
  {
    if k == 0 {
      steps := AllPull(vault, n, n);
    } else {
      steps := AllPublish(vault, n, k - 1);
      steps := OneMorePublishes(Start(vault, Devices(n)), steps, n, k - 1);
    }
  }

  /** When 17 or more devices each publish after pulling one and the same state, nothing can be published any more. */
  lemma CongestionIsReachable(vault: Id, n: nat) returns (steps: seq<Step>)
    requires C.MAX_COMMIT_PARENTS < n <= MAX_HEADS
    ensures Congested(Execute(Start(vault, Devices(n)), steps))
  {
    steps := AllPublish(vault, n, n);
    var s := Execute(Start(vault, Devices(n)), steps);
    forall d {:trigger Stuck(s, d)} | d in s.clients ensures Stuck(s, d) { assert Idle(s, d, n, n); }
  }

  // ----- a retry after a pull

  /** Recording an acceptance turns the device's clock back exactly when a pull has moved it past the published
      commit. */
  lemma AcknowledgeLowersClockExactly(s: System, r: Reply)
    requires Enabled(s, Acknowledge(r))
    ensures var t := Next(s, Acknowledge(r));
            t.clients[r.device].lamport < s.clients[r.device].lamport <==>
            s.clients[r.device].lamport > r.commit.body.logicalTimestamp
  {}

  /** The retry of the commit a device holds, once the server has it: the reply names the current heads. */
  lemma Retries(s: System, d: Id, p: SignedCommit) returns (steps: seq<Step>)
    requires Safe(s) && d in s.clients && s.clients[d].prepared == Some(p) && Stored(s.db, p)
    requires d in s.db.devices && s.db.devices[d]
    ensures var t := Execute(s, steps);
            && Safe(t) && t.db == s.db && d in t.clients
            && t.clients[d] ==
                Client(p.deviceSequence, p.body.logicalTimestamp, s.clients[d].known + {p.commitId}, s.db.heads,
                                      None, false)
  {
    RetrySucceedsExactly(s, d);
    AcceptExactly(s.db, s.vault, d, p);
    assert ClientOk(s, d);
    U.AfterAcknowledge(s, d, p, s.db.heads);
    steps := [Send(d), Deliver(p), Acknowledge(Reply(d, p, s.db.heads))];
    ExecuteIsSafe(s, steps);
  }

  /** `t` is reached from the start by `steps`, with two active devices. */
  ghost predicate TwoDevices(vault: Id, steps: seq<Step>, t: System) {
    && t == Execute(Start(vault, Devices(1)), steps) && Safe(t) && t.vault == vault
    && t.clients.Keys == {0, 1} && AllActive(t)
  }

  lemma TwoStart(vault: Id) returns (steps: seq<Step>, t: System)
    ensures TwoDevices(vault, steps, t)
    ensures t.clients[0] == t.clients[1] == NewClient && t.db.commits == map[] && t.db.heads == {}
  {
    steps := Registers(vault, 1, 2);
    t := Execute(Start(vault, Devices(1)), steps);
    StartIsSafe(vault, Devices(1));
    ExecuteIsSafe(Start(vault, Devices(1)), steps);
    assert Start(vault, Devices(1)).clients.Keys == {0, 1};
  }

  lemma TwoPull(vault: Id, steps: seq<Step>, s: System, d: Id) returns (longer: seq<Step>, t: System)
    requires TwoDevices(vault, steps, s) && d < 2
    ensures TwoDevices(vault, longer, t) && HasPulled(s, d, t)
  {
    Pulls(s, d);
    t := Next(s, FullPull(s, d));
    U.ExecuteSnoc(Start(vault, Devices(1)), steps, FullPull(s, d));
    longer := steps + [FullPull(s, d)];
  }

  ghost predicate HasPulled(s: System, d: Id, t: System) {
    && d in s.clients && d in t.clients && t == s.(clients := s.clients[d := t.clients[d]])
    && t.clients[d].pulled && t.clients[d].prepared == s.clients[d].prepared && t.clients[d].heads == s.db.heads
    && forall id :: id in s.db.commits && s.db.heads != {} ==> t.clients[d].lamport >= Timestamp(s.db, id)
  }

  lemma TwoDeliver(vault: Id, steps: seq<Step>, s: System, d: Id, id: Id)
    returns (longer: seq<Step>, p: SignedCommit, t: System)
    requires TwoDevices(vault, steps, s) && d < 2 && MayPublish(s, d, id)
    ensures TwoDevices(vault, longer, t) && Delivered(s, d, id, p, t)
  {
    var rest;
    rest, p := Delivers(s, d, id);
    U.ExecuteConcat(Start(vault, Devices(1)), steps, rest);
    longer, t := steps + rest, Execute(s, rest);
  }

  /** Device 0 publishes a commit but does not hear of it. */
  lemma LostReply(vault: Id) returns (steps: seq<Step>, p: SignedCommit, t: System)
    ensures TwoDevices(vault, steps, t) && t.clients[0].prepared == Some(p) && t.clients[1] == NewClient
    ensures Stored(t.db, p) && p.commitId == 0 && t.db.commits.Keys == {0} && t.db.heads == {0}
  {
    var s;
    steps, s := TwoStart(vault);
    steps, s := TwoPull(vault, steps, s, 0);
    steps, p, t := TwoDeliver(vault, steps, s, 0, 0);
  }

  /** Device 1 then publishes a later one. */
  lemma LaterCommit(vault: Id) returns (steps: seq<Step>, p: SignedCommit, q: SignedCommit, t: System)
    ensures TwoDevices(vault, steps, t) && t.clients[0].prepared == Some(p)
    ensures Stored(t.db, p) && Stored(t.db, q) && t.db.heads != {} && q.body.logicalTimestamp > p.body.logicalTimestamp
  {
    var s, ready;
    steps, p, s := LostReply(vault);
    steps, ready := TwoPull(vault, steps, s, 1);
    assert ready.clients[1].lamport >= Timestamp(s.db, 0) == p.body.logicalTimestamp;
    assert forall x :: !Holds(ready, x, 1);
    steps, q, t := TwoDeliver(vault, steps, ready, 1, 1);
  }

  /** When device 0 has pulled both and retries, its clock goes back. */
  lemma ClockGoesBack(vault: Id) returns (steps: seq<Step>, retry: seq<Step>)
    ensures var start := Start(vault, Devices(1));
            && 0 in Execute(start, steps).clients && 0 in Execute(start, steps + retry).clients
            && Execute(start, steps).clients[0].prepared.Some?
            && Execute(start, steps + retry).clients[0].prepared.None?
            && Execute(start, steps + retry).clients[0].lamport < Execute(start, steps).clients[0].lamport
  {
    var p, q, s, t;
    steps, p, q, s := LaterCommit(vault);
    steps, t := TwoPull(vault, steps, s, 0);
    assert t.clients[0].lamport >= Timestamp(s.db, q.commitId) == q.body.logicalTimestamp;
    retry := Retries(t, 0, p);
    U.ExecuteConcat(Start(vault, Devices(1)), steps, retry);
  }

  /** Two devices that pull the empty store and both prepare a root: the second one's is refused for ever. */
  lemma LateRootIsReachable(vault: Id) returns (steps: seq<Step>)
    ensures var s := Execute(Start(vault, Devices(1)), steps);
            && Safe(s) && 1 in s.clients && s.clients[1].prepared.Some? && s.clients[1].prepared.value.parents == []
            && !Stored(s.db, s.clients[1].prepared.value) && s.db.commits != map[]
  {
    var s, p;
    steps, s := TwoStart(vault);
    steps, s := TwoPull(vault, steps, s, 0);
    steps, s := TwoPull(vault, steps, s, 1);
    var step, late := PreparesNext(s, 1, 1);
    U.ExecuteConcat(Start(vault, Devices(1)), steps, [step]);
    steps := steps + [step];
    s := Execute(s, [step]);
    if late.parents != [] { HasMember(late.parents); }
    steps, p, s := TwoDeliver(vault, steps, s, 0, 0);
  }
}
