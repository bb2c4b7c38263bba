/** The start-up seed: the same reconciliation for every profile in turn, without a transaction. The
    first conflict ends it. */
module InboundSeed {
  import opened Collections
  import opened InboundSync
  import opened InboundSyncServices

  /** A profile, its configuration's inbounds, and the uuids the database generates for it. */
  datatype Job = Job(profile: Uuid, config: seq<Inbound>, uuids: seq<Uuid>)

  ghost function Seed(t: Table, jobs: seq<Job>): Outcome
    requires forall j | j in jobs :: |j.uuids| >= |j.config|
    decreases |jobs|
  {
    if jobs == [] then Synced(t, 0)
    else
      match Sync(t, jobs[0].profile, jobs[0].config, jobs[0].uuids)
      case Conflict(t') => Conflict(t')
      case Synced(t', writes) =>
        match Seed(t', jobs[1..])
        case Conflict(t'') => Conflict(t'')
        case Synced(t'', more) => Synced(t'', writes + more)
  }

  /** Each configuration's tags are distinct; profiles are distinct. Two configurations may share a tag. */
  ghost predicate JobsOk(jobs: seq<Job>) {
    && (forall j | j in jobs :: DistinctTags(j.config) && |j.uuids| >= |j.config|)
    && (forall a, b | 0 <= a < b < |jobs| :: Apart(jobs[a], jobs[b]))
  }

  ghost predicate Apart(a: Job, b: Job) {
    && a.profile != b.profile
    && (forall u | u in a.uuids :: u !in b.uuids)
  }

  /** A job wants the tag of a row of another profile whose own job does not come earlier. */
  ghost predicate Blocks(t: Table, jobs: seq<Job>, i: nat, c: Inbound, u: Uuid) {
    && i < |jobs| && c in jobs[i].config
    && u in t && t[u].inbound.tag == c.tag && t[u].profile != jobs[i].profile
    && forall k | 0 <= k < i :: jobs[k].profile != t[u].profile
  }

  ghost predicate Blocked(t: Table, jobs: seq<Job>) {
    exists i: nat, c, u :: Blocks(t, jobs, i, c, u)
  }

  ghost predicate Share(a: Job, b: Job) {
    exists c, d :: c in a.config && d in b.config && c.tag == d.tag
  }

  /** Two configurations have a tag in common. */
  ghost predicate Shared(jobs: seq<Job>) {
    exists i, k :: 0 <= i < k < |jobs| && Share(jobs[i], jobs[k])
  }

  ghost predicate Runnable(t: Table, jobs: seq<Job>) {
    UniqueTags(t) && JobsOk(jobs) && forall j | j in jobs :: Unused(t, j.uuids)
  }

  ghost predicate SameRows(t: Table, t': Table, profile: Uuid) {
    && (forall u | u in t && t[u].profile == profile :: u in t' && t'[u] == t[u])
    && (forall u | u in t' && t'[u].profile == profile :: u in t && t[u] == t'[u])
  }

  /** Rows of profiles outside the jobs, and uuids that nobody generated, are left alone. */
  ghost predicate Extends(t: Table, t': Table, jobs: seq<Job>) {
    && (forall p | (forall j | j in jobs :: j.profile != p) :: SameRows(t, t', p))
    && (forall u | u in t' && u !in t :: exists j :: j in jobs && u in j.uuids)
    && (forall u | u in t' ::
          (u in t && t[u] == t'[u]) || exists j, c :: j in jobs && c in j.config && t'[u] == Row(j.profile, c))
  }

  ghost predicate AllAgree(t: Table, jobs: seq<Job>) {
    forall j | j in jobs :: KindsAgree(t, j.profile, j.config)
  }

  ghost predicate AllSettled(t: Table, jobs: seq<Job>) {
    forall j | j in jobs :: Settled(t, j.profile, j.config)
  }

  /** A pass succeeds and makes every profile agree in tags and kinds; from agreement it settles every
      profile, and from there it writes nothing. */
  ghost predicate PassOk(t: Table, r: Outcome, jobs: seq<Job>) {
    && r.Synced? && UniqueTags(r.table) && Extends(t, r.table, jobs)
    && AllAgree(r.table, jobs)
    && (AllAgree(t, jobs) ==> AllSettled(r.table, jobs))
    && (AllSettled(t, jobs) ==> r.writes == 0)
  }

  lemma OneJobExtends(t: Table, job: Job)
    requires SyncInput(t, job.config, job.uuids) && Sync(t, job.profile, job.config, job.uuids).Synced?
    ensures Extends(t, Sync(t, job.profile, job.config, job.uuids).table, [job])
  {
    var t' := Sync(t, job.profile, job.config, job.uuids).table;
    AfterOneRun(t, job.profile, job.config, job.uuids);
    RowsComeFromSomewhere(t, job);
    forall p | forall j | j in [job] :: j.profile != p ensures SameRows(t, t', p) {
      assert job in [job];
    }
    forall u | u in t' && u !in t ensures exists j :: j in [job] && u in j.uuids {
      assert job in [job] && u in job.uuids;
    }
    forall u | u in t' && !(u in t && t[u] == t'[u])
      ensures exists j, c :: j in [job] && c in j.config && t'[u] == Row(j.profile, c)
    {
      var c :| c in job.config && t'[u] == Row(job.profile, c);
      assert job in [job];
    }
  }

  lemma OneJobAll(t: Table, job: Job)
    ensures AllAgree(t, [job]) <==> KindsAgree(t, job.profile, job.config)
    ensures AllSettled(t, [job]) <==> Settled(t, job.profile, job.config)
  {
  }

  lemma OneJobAgrees(t: Table, profile: Uuid, config: seq<Inbound>, uuids: seq<Uuid>)
    requires SyncInput(t, config, uuids) && !TagElsewhere(t, profile, config)
    ensures var r := Sync(t, profile, config, uuids);
            && r.Synced? && UniqueTags(r.table) && KindsAgree(r.table, profile, config)
            && (KindsAgree(t, profile, config) ==> Settled(r.table, profile, config))
            && (Settled(t, profile, config) ==> r.writes == 0)
  {
    ConflictExactly(t, profile, config, uuids);
    AfterOneRun(t, profile, config, uuids);
    if KindsAgree(t, profile, config) {
      AgreedRunSettles(t, profile, config, uuids);
    }
    SettledExactly(t, profile, config, uuids);
  }

  lemma SyncOneJob(t: Table, job: Job)
    requires SyncInput(t, job.config, job.uuids) && !TagElsewhere(t, job.profile, job.config)
    ensures PassOk(t, Sync(t, job.profile, job.config, job.uuids), [job])
  {
    OneJobAgrees(t, job.profile, job.config, job.uuids);
    OneJobExtends(t, job);
    OneJobAll(t, job);
    OneJobAll(Sync(t, job.profile, job.config, job.uuids).table, job);
  }

  lemma RowsComeFromSomewhere(t: Table, job: Job)
    requires SyncInput(t, job.config, job.uuids)
    requires Sync(t, job.profile, job.config, job.uuids).Synced?
    ensures var t' := Sync(t, job.profile, job.config, job.uuids).table;
            && (forall u | u in t' && u !in t :: u in job.uuids)
            && (forall u | u in t' ::
                  (u in t && t[u] == t'[u]) || exists c :: c in job.config && t'[u] == Row(job.profile, c))
  {
    var removed, added := ToRemove(t, job.profile, job.config), ToAdd(t, job.profile, job.config);
    AddFits(t, job.profile, job.config);
    if removed == {} && added == [] {
      forall u | u in t && Changed(t[u], job.profile, job.config)
        ensures exists c :: c in job.config && Updated(t, job.profile, job.config)[u] == Row(job.profile, c)
      {
        FindFinds(job.config, t[u].inbound.tag);
      }
    } else {
      CreatedRows(t - removed, job.profile, added, job.uuids);
      forall i | 0 <= i < |added| ensures added[i] in job.config && job.uuids[i] in job.uuids {
        assert added[i] in added;
      }
    }
  }

  lemma RunnableAfter(t: Table, t': Table, jobs: seq<Job>)
    requires jobs != [] && Runnable(t, jobs) && UniqueTags(t') && Extends(t, t', jobs[..1])
    ensures Runnable(t', jobs[1..])
  {
  }

  /** A row of the first profile that blocks a later job shows that the two share a tag; any other row
      blocks the whole list as well. */
  lemma LaterBlock(t: Table, jobs: seq<Job>, i: nat, c: Inbound, u: Uuid)
    requires jobs != [] && JobsOk(jobs) && KindsAgree(t, jobs[0].profile, jobs[0].config)
    requires Blocks(t, jobs[1..], i, c, u)
    ensures if t[u].profile == jobs[0].profile then Share(jobs[0], jobs[i + 1]) else Blocks(t, jobs, i + 1, c, u)
  {
  }

  /** A tag shared with a later job blocks that job, or an earlier one, once the first has run. */
  lemma SharedBlocks(t: Table, jobs: seq<Job>, k: nat)
    requires jobs != [] && JobsOk(jobs) && KindsAgree(t, jobs[0].profile, jobs[0].config)
    requires 0 < k < |jobs| && Share(jobs[0], jobs[k])
    ensures Blocked(t, jobs[1..])
  {
    var c, d :| c in jobs[0].config && d in jobs[k].config && c.tag == d.tag;
    assert Held(t, jobs[0].profile, c);
    var u :| u in t && t[u].profile == jobs[0].profile && t[u].inbound.tag == c.tag && t[u].inbound.kind == c.kind;
    forall j | 0 <= j < |jobs| - 1 ensures jobs[1..][j].profile != t[u].profile {
      assert Apart(jobs[0], jobs[j + 1]);
    }
    assert Blocks(t, jobs[1..], k - 1, d, u);
  }

  ghost predicate Fails(t: Table, jobs: seq<Job>) {
    Blocked(t, jobs) || Shared(jobs)
  }

  lemma SharedLater(jobs: seq<Job>)
    requires jobs != [] && Shared(jobs[1..])
    ensures Shared(jobs)
  {
  }

  lemma BlockedLater(t: Table, jobs: seq<Job>)
    requires jobs != [] && JobsOk(jobs) && KindsAgree(t, jobs[0].profile, jobs[0].config)
    requires Blocked(t, jobs[1..])
    ensures Fails(t, jobs)
  {
    var i: nat, c, u :| Blocks(t, jobs[1..], i, c, u);
    LaterBlock(t, jobs, i, c, u);
    FailsByBlock(t, jobs, i + 1, c, u);
  }

  lemma FailsByBlock(t: Table, jobs: seq<Job>, k: nat, c: Inbound, u: Uuid)
    requires 0 < k < |jobs| && (Share(jobs[0], jobs[k]) || Blocks(t, jobs, k, c, u))
    ensures Fails(t, jobs)
  {
  }

  lemma FailsAfterIf(t: Table, t1: Table, jobs: seq<Job>)
    requires jobs != [] && JobsOk(jobs) && !TagElsewhere(t, jobs[0].profile, jobs[0].config)
    requires KindsAgree(t1, jobs[0].profile, jobs[0].config)
    requires forall p | p != jobs[0].profile :: SameRows(t, t1, p)
    requires Fails(t, jobs)
    ensures Fails(t1, jobs[1..])
  {
    if i: nat, c, u :| Blocks(t, jobs, i, c, u) {
      assert i > 0 && SameRows(t, t1, t[u].profile);
      assert Blocks(t1, jobs[1..], i - 1, c, u);
    } else {
      var i, k :| 0 <= i < k < |jobs| && Share(jobs[i], jobs[k]);
      if i == 0 {
        SharedBlocks(t1, jobs, k);
      } else {
        assert Share(jobs[1..][i - 1], jobs[1..][k - 1]);
      }
    }
  }

  lemma BlockWasThere(t: Table, t1: Table, jobs: seq<Job>, i: nat, c: Inbound, u: Uuid)
    requires jobs != [] && i > 0 && forall p | p != jobs[0].profile :: SameRows(t, t1, p)
    requires if u in t1 && t1[u].profile == jobs[0].profile then i < |jobs| && Share(jobs[0], jobs[i])
             else Blocks(t1, jobs, i, c, u)
    ensures Fails(t, jobs)
  {
    if !(u in t1 && t1[u].profile == jobs[0].profile) {
      assert SameRows(t, t1, t1[u].profile);
      assert Blocks(t, jobs, i, c, u);
    }
  }

  lemma FailsAfterOnlyIf(t: Table, t1: Table, jobs: seq<Job>)
    requires jobs != [] && JobsOk(jobs)
    requires KindsAgree(t1, jobs[0].profile, jobs[0].config)
    requires forall p | p != jobs[0].profile :: SameRows(t, t1, p)
    requires Fails(t1, jobs[1..])
    ensures Fails(t, jobs)
  {
    if Blocked(t1, jobs[1..]) {
      var i: nat, c, u :| Blocks(t1, jobs[1..], i, c, u);
      LaterBlock(t1, jobs, i, c, u);
      BlockWasThere(t, t1, jobs, i + 1, c, u);
    } else {
      SharedLater(jobs);
    }
  }

  /** The first job neither mends nor breaks anything for the rest. */
  lemma FailsAfter(t: Table, t1: Table, jobs: seq<Job>)
    requires jobs != [] && JobsOk(jobs) && !TagElsewhere(t, jobs[0].profile, jobs[0].config)
    requires KindsAgree(t1, jobs[0].profile, jobs[0].config)
    requires forall p | p != jobs[0].profile :: SameRows(t, t1, p)
    ensures Fails(t1, jobs[1..]) <==> Fails(t, jobs)
  {
    if Fails(t, jobs) {
      FailsAfterIf(t, t1, jobs);
    } else if Fails(t1, jobs[1..]) {
      FailsAfterOnlyIf(t, t1, jobs);
    }
  }

  lemma AgreementIsLocal(t: Table, t': Table, profile: Uuid, config: seq<Inbound>)
    requires SameRows(t, t', profile)
    ensures KindsAgree(t, profile, config) ==> KindsAgree(t', profile, config)
    ensures Settled(t, profile, config) ==> Settled(t', profile, config)
  {
  }

  lemma ExtendsCompose(t: Table, t1: Table, t2: Table, jobs: seq<Job>)
    requires jobs != [] && Extends(t, t1, jobs[..1]) && Extends(t1, t2, jobs[1..])
    ensures Extends(t, t2, jobs)
  {
    assert jobs == jobs[..1] + jobs[1..];
    forall p | forall j | j in jobs :: j.profile != p ensures SameRows(t, t2, p) {
      assert SameRows(t, t1, p) && SameRows(t1, t2, p);
    }
  }

  /** The first job's rows survive the rest of the pass, the others' rows survive the first job. */
  lemma OthersUntouched(t: Table, t1: Table, t2: Table, jobs: seq<Job>)
    requires jobs != [] && JobsOk(jobs) && Extends(t, t1, jobs[..1]) && Extends(t1, t2, jobs[1..])
    ensures SameRows(t1, t2, jobs[0].profile)
    ensures forall j | j in jobs[1..] :: SameRows(t, t1, j.profile)
  {
  }

  lemma PassCompose(t: Table, r1: Outcome, r2: Outcome, jobs: seq<Job>)
    requires jobs != [] && JobsOk(jobs) && r1.Synced?
    requires PassOk(t, r1, jobs[..1]) && PassOk(r1.table, r2, jobs[1..])
    ensures PassOk(t, Synced(r2.table, r1.writes + r2.writes), jobs)
  {
    var t1, t2 := r1.table, r2.table;
    ExtendsCompose(t, t1, t2, jobs);
    OthersUntouched(t, t1, t2, jobs);
    assert jobs[0] in jobs && jobs[0] in jobs[..1];
    forall j | j in jobs[1..] {
      AgreementIsLocal(t, t1, j.profile, j.config);
    }
    AgreementIsLocal(t1, t2, jobs[0].profile, jobs[0].config);
    forall j | j in jobs ensures j == jobs[0] || j in jobs[1..] {
    }
  }

  lemma FirstJob(t: Table, jobs: seq<Job>)
    requires jobs != [] && Runnable(t, jobs)
    ensures SyncInput(t, jobs[0].config, jobs[0].uuids)
    ensures TagElsewhere(t, jobs[0].profile, jobs[0].config) ==> Blocked(t, jobs)
  {
    assert jobs[0] in jobs;
    if TagElsewhere(t, jobs[0].profile, jobs[0].config) {
      var u, c :| u in t && c in jobs[0].config && t[u].profile != jobs[0].profile && t[u].inbound.tag == c.tag;
      assert Blocks(t, jobs, 0, c, u);
    }
  }

  /** The first job of a pass, when it meets no foreign tag. */
  lemma FirstJobDone(t: Table, jobs: seq<Job>) returns (r: Outcome)
    requires jobs != [] && Runnable(t, jobs) && !TagElsewhere(t, jobs[0].profile, jobs[0].config)
    ensures r == Sync(t, jobs[0].profile, jobs[0].config, jobs[0].uuids) && PassOk(t, r, jobs[..1])
    ensures Runnable(r.table, jobs[1..])
    ensures KindsAgree(r.table, jobs[0].profile, jobs[0].config)
    ensures forall p | p != jobs[0].profile :: SameRows(t, r.table, p)
    ensures Fails(r.table, jobs[1..]) <==> Fails(t, jobs)
  {
    assert jobs[..1] == [jobs[0]];
    FirstJob(t, jobs);
    SyncOneJob(t, jobs[0]);
    r := Sync(t, jobs[0].profile, jobs[0].config, jobs[0].uuids);
    RunnableAfter(t, r.table, jobs);
    assert jobs[0] in jobs[..1];
    FailsAfter(t, r.table, jobs);
  }

  /** One pass over all profiles: it fails exactly when it is blocked or two configurations share a tag. */
  lemma {:induction false} SeedPassExactly(t: Table, jobs: seq<Job>)
    requires Runnable(t, jobs)
    ensures Seed(t, jobs).Conflict? <==> Blocked(t, jobs) || Shared(jobs)
    ensures !Blocked(t, jobs) && !Shared(jobs) ==> PassOk(t, Seed(t, jobs), jobs)
    decreases |jobs|
  {
    if jobs != [] {
      FirstJob(t, jobs);
      ConflictExactly(t, jobs[0].profile, jobs[0].config, jobs[0].uuids);
      if !TagElsewhere(t, jobs[0].profile, jobs[0].config) {
        var r1 := FirstJobDone(t, jobs);
        SeedPassExactly(r1.table, jobs[1..]);
        if !Fails(t, jobs) {
          PassCompose(t, r1, Seed(r1.table, jobs[1..]), jobs);
        }
      }
    }
  }

  /** The jobs are done in turn: first those of a, then, unless one of them was refused, those of b. */
  lemma {:induction false} SeedInTurn(t: Table, a: seq<Job>, b: seq<Job>)
    requires forall j | j in a + b :: |j.uuids| >= |j.config|
    ensures Seed(t, a + b)
         == match Seed(t, a)
            case Conflict(t') => Conflict(t')
            case Synced(t', n) =>
              match Seed(t', b)
              case Conflict(t'') => Conflict(t'')
              case Synced(t'', m) => Synced(t'', n + m)
    decreases |a|
  {
    if a == [] {
      assert a + b == b;
    } else {
      assert (a + b)[0] == a[0] && (a + b)[1..] == a[1..] + b;
      var r := Sync(t, a[0].profile, a[0].config, a[0].uuids);
      if r.Synced? {
        SeedInTurn(r.table, a[1..], b);
      }
    }
  }

  lemma SeedOneJob(t: Table, job: Job)
    requires |job.uuids| >= |job.config|
    ensures Seed(t, [job]) == Sync(t, job.profile, job.config, job.uuids)
  {
    assert [job][1..] == [];
  }

  /** Profiles without a job are left alone, also by a pass that fails. */
  lemma {:induction false} SeedLeaves(t: Table, jobs: seq<Job>, p: Uuid)
    requires Runnable(t, jobs) && forall j | j in jobs :: j.profile != p
    ensures SameRows(t, Seed(t, jobs).table, p)
    decreases |jobs|
  {
    if jobs != [] {
      FirstJob(t, jobs);
      assert jobs[0] in jobs;
      ConflictExactly(t, jobs[0].profile, jobs[0].config, jobs[0].uuids);
      if !TagElsewhere(t, jobs[0].profile, jobs[0].config) {
        var r1 := FirstJobDone(t, jobs);
        SeedLeaves(r1.table, jobs[1..], p);
        assert SameRows(t, r1.table, p);
      }
    }
  }

  /** A failed pass fails again. */
  lemma {:induction false} StaysFailing(t: Table, jobs: seq<Job>)
    requires Runnable(t, jobs) && Fails(t, jobs)
    ensures Fails(Seed(t, jobs).table, jobs)
    decreases |jobs|
  {
    if !Shared(jobs) {
      FirstJob(t, jobs);
      var profile, config := jobs[0].profile, jobs[0].config;
      ConflictExactly(t, profile, config, jobs[0].uuids);
      var end := Seed(t, jobs).table;
      if TagElsewhere(t, profile, config) {
        var u, c :| u in t && c in config && t[u].profile != profile && t[u].inbound.tag == c.tag;
        assert Blocks(end, jobs, 0, c, u);
      } else {
        var r1 := FirstJobDone(t, jobs);
        StaysFailing(r1.table, jobs[1..]);
        LaterProfilesDiffer(jobs);
        SeedLeaves(r1.table, jobs[1..], profile);
        AgreementIsLocal(r1.table, end, profile, config);
        LaterFailure(end, jobs);
      }
    }
  }

  lemma LaterFailure(t: Table, jobs: seq<Job>)
    requires jobs != [] && JobsOk(jobs) && KindsAgree(t, jobs[0].profile, jobs[0].config)
    requires Fails(t, jobs[1..])
    ensures Fails(t, jobs)
  {
    if Blocked(t, jobs[1..]) {
      BlockedLater(t, jobs);
    } else {
      SharedLater(jobs);
    }
  }

  lemma LaterProfilesDiffer(jobs: seq<Job>)
    requires jobs != [] && JobsOk(jobs)
    ensures forall j | j in jobs[1..] :: j.profile != jobs[0].profile
  {
  }

  /** With all profiles in agreement nothing is blocked. */
  lemma AgreedIsNotBlocked(t: Table, jobs: seq<Job>)
    requires UniqueTags(t) && AllAgree(t, jobs)
    ensures !Blocked(t, jobs)
  {
  }

  /** The same profiles and configurations; only the generated uuids differ. */
  ghost predicate SameWork(a: seq<Job>, b: seq<Job>) {
    |a| == |b| && forall i | 0 <= i < |a| :: a[i].profile == b[i].profile && a[i].config == b[i].config
  }

  lemma SameWorkSame(t: Table, a: seq<Job>, b: seq<Job>)
    requires SameWork(a, b)
    ensures AllAgree(t, a) ==> AllAgree(t, b)
    ensures AllSettled(t, a) ==> AllSettled(t, b)
  {
  }

  lemma SameWorkFails(t: Table, a: seq<Job>, b: seq<Job>)
    requires SameWork(a, b) && Fails(t, a)
    ensures Fails(t, b)
  {
    if i: nat, c, u :| Blocks(t, a, i, c, u) {
      assert Blocks(t, b, i, c, u);
    } else {
      var i, k :| 0 <= i < k < |a| && Share(a[i], a[k]);
      assert Share(b[i], b[k]);
    }
  }

  /** Convergence of the seed: unless the first pass fails, two passes make every field of every profile
      agree, and the third writes nothing. */
  lemma SeedConverges(t: Table, first: seq<Job>, second: seq<Job>, third: seq<Job>)
    requires Runnable(t, first) && !Blocked(t, first) && !Shared(first)
    requires SameWork(first, second) && SameWork(second, third)
    requires Runnable(Seed(t, first).table, second)
    requires JobsOk(third) && Runnable(Seed(Seed(t, first).table, second).table, third)
    ensures AllSettled(Seed(Seed(t, first).table, second).table, third)
    ensures Seed(Seed(Seed(t, first).table, second).table, third).Synced?
    ensures Seed(Seed(Seed(t, first).table, second).table, third).writes == 0
  {
    SeedPassExactly(t, first);
    var t1 := Seed(t, first).table;
    SameWorkSame(t1, first, second);
    NotShared(first, second);
    AgreedIsNotBlocked(t1, second);
    SeedPassExactly(t1, second);
    var t2 := Seed(t1, second).table;
    SameWorkSame(t2, second, third);
    NotShared(second, third);
    AgreedIsNotBlocked(t2, third);
    SeedPassExactly(t2, third);
  }

  lemma NotShared(a: seq<Job>, b: seq<Job>)
    requires SameWork(a, b) && !Shared(a)
    ensures !Shared(b)
  {
  }

  /** A seed that fails goes on failing in every later pass: a blocking row is removed only when its own
      profile's turn comes, which it never does, and a shared tag stays shared. */
  lemma SeedStuck(t: Table, first: seq<Job>, second: seq<Job>)
    requires Runnable(t, first) && (Blocked(t, first) || Shared(first)) && SameWork(first, second)
    requires Runnable(Seed(t, first).table, second)
    ensures Seed(t, first).Conflict? && Seed(Seed(t, first).table, second).Conflict?
    ensures Blocked(Seed(t, first).table, second) || Shared(second)
  {
    SeedPassExactly(t, first);
    StaysFailing(t, first);
    SameWorkFails(Seed(t, first).table, first, second);
    SeedPassExactly(Seed(t, first).table, second);
  }

  /** A tag that moved from profile q to profile p, whose turn is earlier. */
  lemma MovedTagBlocks()
    ensures var t := map["u" := Row("q", WEB)];
            var jobs := [Job("p", [WEB], ["v"]), Job("q", [], [])];
            Runnable(t, jobs) && Blocked(t, jobs) && !Shared(jobs) && Seed(t, jobs).Conflict?
  {
    var t := map["u" := Row("q", WEB)];
    var jobs := [Job("p", [WEB], ["v"]), Job("q", [], [])];
    assert Blocks(t, jobs, 0, WEB, "u");
    SeedPassExactly(t, jobs);
  }

  /** Two stored configurations with one tag, and no stored inbound yet. */
  lemma SharedTagFails()
    ensures var jobs := [Job("p", [WEB], ["u"]), Job("q", [WEB], ["v"])];
            Runnable(map[], jobs) && !Blocked(map[], jobs) && Shared(jobs) && Seed(map[], jobs).Conflict?
  {
    var jobs := [Job("p", [WEB], ["u"]), Job("q", [WEB], ["v"])];
    assert Share(jobs[0], jobs[1]);
    SeedPassExactly(map[], jobs);
  }

  // ---------------------------------------------------------------- the loop over profiles

  /** findMany({ where: { profileUuid } }) */
  method FetchRows(repo: InboundRepository, profile: Uuid) returns (existing: seq<InboundEntity>)
    ensures fresh(existing) && Fetched(existing, repo.table, profile)
  {
    existing := [];
    var todo := set u | u in repo.table && repo.table[u].profile == profile;
    while todo != {}
      invariant fresh(existing)
      invariant todo <= set u | u in repo.table && repo.table[u].profile == profile
      invariant forall e | e in existing ::
                  && e.uuid in repo.table && e.uuid !in todo && e.profile == profile
                  && repo.table[e.uuid] == Row(profile, e.Value())
      invariant forall i, j | 0 <= i < j < |existing| ::
              existing[i] != existing[j] && existing[i].uuid != existing[j].uuid
      invariant forall u | u in repo.table && repo.table[u].profile == profile ::
                  u in todo || exists e :: e in existing && e.uuid == u
      decreases todo
    {
      var u :| u in todo;
      var e := new InboundEntity(u, repo.table[u]);
      assert e !in existing;
      existing := existing + [e];
      todo := todo - {u};
    }
  }

  lemma SeedUnfolds(t: Table, jobs: seq<Job>)
    requires jobs != [] && Runnable(t, jobs)
    ensures SyncInput(t, jobs[0].config, jobs[0].uuids)
    ensures var r := Sync(t, jobs[0].profile, jobs[0].config, jobs[0].uuids);
            if r.Synced?
            then && Runnable(r.table, jobs[1..])
                 && Seed(r.table, jobs[1..]).table == Seed(t, jobs).table
                 && Seed(r.table, jobs[1..]).Synced? == Seed(t, jobs).Synced?
            else r == Seed(t, jobs)
  {
    var job := jobs[0];
    assert job in jobs && jobs[..1] == [job];
    if Sync(t, job.profile, job.config, job.uuids).Synced? {
      AfterOneRun(t, job.profile, job.config, job.uuids);
      OneJobExtends(t, job);
      RunnableAfter(t, Sync(t, job.profile, job.config, job.uuids).table, jobs);
    }
  }

  method SyncAllProfiles(repo: InboundRepository, jobs: seq<Job>) returns (result: Result)
    requires Runnable(repo.table, jobs)
    modifies repo
    ensures repo.table == Seed(old(repo.table), jobs).table
    ensures result != NotFound && (result == Done <==> Seed(old(repo.table), jobs).Synced?)
  {
    ghost var whole := Seed(repo.table, jobs);
    result := Done;
    for i := 0 to |jobs|
      invariant Runnable(repo.table, jobs[i..]) && result == Done
      invariant Seed(repo.table, jobs[i..]).Synced? == whole.Synced?
      invariant Seed(repo.table, jobs[i..]).table == whole.table
    {
      assert jobs[i..][0] == jobs[i] && jobs[i..][1..] == jobs[i + 1..];
      SeedUnfolds(repo.table, jobs[i..]);
      var existing := FetchRows(repo, jobs[i].profile);
      result := SyncInbounds(repo, existing, jobs[i].config, jobs[i].profile, jobs[i].uuids);
      if result != Done {
        return;
      }
    }
    assert jobs[|jobs|..] == [];
  }
}