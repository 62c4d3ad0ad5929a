/** What every reachable state of the hand-off keeps, for every interleaving of allowed events. */
module HandOffInvariant {
  import opened Bits
  import opened HandOff

  predicate DaemonHolds(s: State) {
    s.daemon.Copying? || s.daemon.ReadGet? || s.daemon.ReadPost?
  }

  function One(b: bool): nat { if b then 1 else 0 }

  /** Exactly one token exists: in a semaphore, with the target, or with the daemon. */
  ghost predicate Token(s: State)
    requires Sized(s)
  {
    s.rd + s.dr + One(TargetHolds(s)) + One(DaemonHolds(s)) == 1
  }

  ghost predicate Status(s: State)
    requires Sized(s)
  {
    match s.target
    case Off | MainTest => s.mem[0] <= UNNOTIFIED
    case RecoverGet | RecoverPost | EndGet | EndPost => s.mem[0] == ENDED
    case MainGet | StartMark => s.mem[0] <= ENDED
    case Running | EndMark => s.mem[0] == UNNOTIFIED || s.mem[0] == 1
    case TargetAborted => false
    case _ => s.mem[0] == UNNOTIFIED
  }

  function MarkOf(hits: set<nat>, j: nat): Byte { if j in hits then 1 else 0 }

  /** `l` marks exactly the indices in `hits`, apart from the status byte. */
  ghost predicate Marks(l: seq<Byte>, hits: set<nat>) {
    && |l| == N
    && (forall j :: j in hits ==> 0 <= j < N)
    && forall j :: 1 <= j < N ==> l[j] == MarkOf(hits, j)
  }

  /** The map, as far as it still has to be copied, or the copy, marks what the run hit. */
  ghost predicate Memory(s: State)
    requires Sized(s)
  {
    && (forall j :: j in s.hits ==> 0 <= j < N)
    && (s.target.Clearing? || s.target.Checking? ==> s.hits == {})
    && (s.target.Clearing? ==> forall j :: 1 <= j < s.target.i ==> s.mem[j] == 0)
    && (s.target.Checking? ==> !s.target.tainted)
    && (Pending(s) || s.target.Checking? || s.target.Running? ==>
          forall j :: 1 <= j < N && !(s.daemon.Copying? && j < s.daemon.i) ==> s.mem[j] == MarkOf(s.hits, j))
    && (s.daemon.Copying? ==> forall j :: 1 <= j < s.daemon.i ==> s.lstate[j] == MarkOf(s.hits, j))
  }

  /** Every finished run but a pending one is recorded, once and in order, with exactly its hits. */
  ghost predicate Log(s: State)
    requires Sized(s)
  {
    && |s.finished| == |s.records| + One(Pending(s))
    && (Pending(s) ==> s.finished[|s.records|] == s.hits)
    && forall i :: 0 <= i < |s.records| ==> Marks(s.records[i], s.finished[i])
  }

  ghost function Indices(c: Config, l: seq<Byte>, hashes: nat): set<nat> {
    set h | 0 <= h < hashes :: c.index(l, h)
  }

  ghost function FilterOf(c: Config, records: seq<seq<Byte>>): set<nat> {
    set i, h | 0 <= i < |records| && 0 <= h < c.hashes :: c.index(records[i], h)
  }

  /** The filter holds the hash indices of every record, the newest one as far as it is hashed. */
  ghost predicate Filter(c: Config, s: State) {
    var n := |s.records|;
    match s.daemon
    case ReadGet | ReadPost => n > 0 && s.lstate == s.records[n - 1] && s.filter == FilterOf(c, s.records[..n - 1])
    case Hashing(h) => n > 0 && s.lstate == s.records[n - 1] && h <= c.hashes &&
                       s.filter == FilterOf(c, s.records[..n - 1]) + Indices(c, s.lstate, h)
    case _ => s.filter == FilterOf(c, s.records)
  }

  function UpTo(filter: set<nat>, w: nat): set<nat> {
    set b | b in filter && b / 64 < w
  }

  /** A tally's count lies between the true counts when it began and now, over the words scanned. */
  ghost predicate TallyOk(c: Config, s: State) {
    s.tally.Scanning? ==>
      && s.tally.w <= c.words && s.tally.start <= s.filter
      && |UpTo(s.tally.start, s.tally.w)| <= s.tally.ones <= |UpTo(s.filter, s.tally.w)|
  }

  ghost predicate Inv(c: Config, s: State) {
    && Sized(s) && !s.daemon.DaemonAborted?
    && Token(s) && Status(s) && Memory(s) && Log(s) && Filter(c, s) && TallyOk(c, s)
  }

  lemma InitInv(c: Config, s: State)
    requires Init(s)
    ensures Inv(c, s)
  {
  }

  // ----- the target's steps -----

  lemma EnterKeeps(c: Config, s: State)
    requires Inv(c, s) && (s.target.MainTest? || s.target.MainGet? || s.target.StartMark? || s.target.StartWait?)
    requires Enabled(c, s, Advance)
    ensures Inv(c, Next(c, s, Advance))
  {
  }

  lemma RecoverKeeps(c: Config, s: State)
    requires Inv(c, s) && (s.target.RecoverMark? || s.target.RecoverGet? || s.target.RecoverPost?)
    ensures Inv(c, Next(c, s, Advance))
  {
  }

  lemma ClearKeeps(c: Config, s: State)
    requires Inv(c, s) && s.target.Clearing?
    ensures Inv(c, Next(c, s, Advance))
  {
  }

  lemma CheckKeeps(c: Config, s: State)
    requires Inv(c, s) && s.target.Checking?
    ensures Inv(c, Next(c, s, Advance))
  {
  }

  lemma EndKeeps(c: Config, s: State)
    requires Inv(c, s) && (s.target.EndMark? || s.target.EndGet? || s.target.EndPost?)
    ensures Inv(c, Next(c, s, Advance))
  {
  }

  lemma AdvanceKeeps(c: Config, s: State)
    requires Inv(c, s) && Enabled(c, s, Advance)
    ensures Inv(c, Next(c, s, Advance))
  {
    match s.target
    case MainTest | MainGet | StartMark | StartWait => EnterKeeps(c, s);
    case RecoverMark | RecoverGet | RecoverPost => RecoverKeeps(c, s);
    case Clearing(_) => ClearKeeps(c, s);
    case Checking(_, _) => CheckKeeps(c, s);
    case EndMark | EndGet | EndPost => EndKeeps(c, s);
  }

  /** Every block's store stays in the map, because the previous location is below half its size. */
  lemma StoreInMap(prev: nat, cur: nat)
    requires prev < N / 2 && cur < N
    ensures Xor(prev, cur) < N
  {
    WordPowers();
    XorBelow(prev, cur, N);
  }

  lemma BlockKeeps(c: Config, s: State, cur: nat)
    requires Inv(c, s) && Enabled(c, s, Block(cur))
    ensures Inv(c, Next(c, s, Block(cur)))
  {
    StoreInMap(s.prev, cur);
  }

  /** Exactly when a store before the start call does no harm. */
  lemma EarlyKeeps(c: Config, s: State, cur: nat)
    requires Inv(c, s) && Enabled(c, s, Early(cur))
    ensures Inv(c, Next(c, s, Early(cur))) <==> EarlySafe(s, Xor(s.prev, cur))
  {
    StoreInMap(s.prev, cur);
    var s', at := Next(c, s, Early(cur)), Xor(s.prev, cur);
    if at > 0 && !EarlySafe(s, at) {
      assert s'.mem[at] != MarkOf(s'.hits, at) && Pending(s');
    } else if EarlySafe(s, at) {
      assert forall j :: 1 <= j < N && j != at ==> s'.mem[j] == s.mem[j];
    }
  }

  /** Exactly when death leaves one token. */
  lemma CrashKeepsToken(c: Config, s: State)
    requires Inv(c, s) && Enabled(c, s, Crash)
    ensures Token(Next(c, s, Crash)) <==> (TargetHolds(s) <==> s.mem[0] > ENDED)
  {
  }

  /** Exactly when death does no harm at all. */
  lemma CrashKeeps(c: Config, s: State)
    requires Inv(c, s) && Enabled(c, s, Crash)
    ensures Inv(c, Next(c, s, Crash)) <==> CrashSafe(s)
  {
  }

  lemma OtherTargetKeeps(c: Config, s: State, e: Event)
    requires Inv(c, s) && Enabled(c, s, e) && (e.Begin? || e.Finish?)
    ensures Inv(c, Next(c, s, e))
  {
  }

  // ----- the daemon's and the tally's steps -----

  lemma {:induction false} SubsetSize(a: set<nat>, b: set<nat>)
    requires a <= b
    ensures |a| <= |b|
  {
    if a != {} {
      var x :| x in a;
      SubsetSize(a - {x}, b - {x});
    }
  }

  lemma UpToGrows(f: set<nat>, g: set<nat>, w: nat)
    requires f <= g
    ensures |UpTo(f, w)| <= |UpTo(g, w)|
  {
    SubsetSize(UpTo(f, w), UpTo(g, w));
  }

  lemma UpToNext(f: set<nat>, w: nat)
    ensures |UpTo(f, w + 1)| == |UpTo(f, w)| + |WordBits(f, w)|
  {
    assert UpTo(f, w + 1) == UpTo(f, w) + WordBits(f, w);
  }

  lemma CopyKeeps(c: Config, s: State)
    requires Inv(c, s) && s.daemon.Copying?
    ensures Inv(c, Next(c, s, Serve))
  {
    var n := |s.records|;
    assert (s.records + [s.lstate])[..n] == s.records;
  }

  lemma HashKeeps(c: Config, s: State)
    requires Inv(c, s) && s.daemon.Hashing?
    ensures Inv(c, Next(c, s, Serve))
  {
    var n, h := |s.records|, s.daemon.h;
    if h < c.hashes {
      var s' := Next(c, s, Serve);
      assert Indices(c, s.lstate, h + 1) == Indices(c, s.lstate, h) + {c.index(s.lstate, h)};
      if s.tally.Scanning? {
        UpToGrows(s.filter, s'.filter, s.tally.w);
      }
    } else {
      FilterOfAdded(c, s.records);
    }
  }

  lemma FilterOfAdded(c: Config, records: seq<seq<Byte>>)
    requires records != []
    ensures var n := |records| - 1;
            FilterOf(c, records) == FilterOf(c, records[..n]) + Indices(c, records[n], c.hashes)
  {
  }

  lemma ServeKeeps(c: Config, s: State)
    requires Inv(c, s) && Enabled(c, s, Serve)
    ensures Inv(c, Next(c, s, Serve))
  {
    if s.daemon.Copying? {
      CopyKeeps(c, s);
    } else if s.daemon.Hashing? {
      HashKeeps(c, s);
    }
  }

  lemma CountKeeps(c: Config, s: State)
    requires Inv(c, s)
    ensures Inv(c, Next(c, s, Count))
  {
    TallyKeeps(c, s);
  }

  lemma TallyKeeps(c: Config, s: State)
    requires TallyOk(c, s)
    ensures TallyOk(c, TallyNext(c, s))
  {
    if s.tally.Scanning? && s.tally.w < c.words {
      var w := s.tally.w;
      UpToNext(s.tally.start, w);
      UpToNext(s.filter, w);
      SubsetSize(WordBits(s.tally.start, w), WordBits(s.filter, w));
    } else {
      assert UpTo(s.filter, 0) == {};
    }
  }

  // ----- whole runs -----

  /** A run of allowed events from the initial state. */
  ghost predicate IsRun(c: Config, ss: seq<State>, es: seq<Event>) {
    Steps(c, ss, es) && Init(ss[0])
  }

  /** Allowed events lead through the states `ss`. */
  ghost predicate Steps(c: Config, ss: seq<State>, es: seq<Event>) {
    |ss| == |es| + 1 && forall i :: 0 <= i < |es| ==> StepAt(c, ss, es, i)
  }

  ghost predicate StepAt(c: Config, ss: seq<State>, es: seq<Event>, i: nat)
    requires i < |es| && |ss| == |es| + 1
  {
    Sized(ss[i]) && Enabled(c, ss[i], es[i]) && Allowed(ss[i], es[i]) && ss[i + 1] == Next(c, ss[i], es[i])
  }

  lemma StepKeeps(c: Config, s: State, e: Event)
    requires Inv(c, s) && Enabled(c, s, e) && Allowed(s, e)
    ensures Inv(c, Next(c, s, e))
  {
    match e
    case Advance => AdvanceKeeps(c, s);
    case Block(cur) => BlockKeeps(c, s, cur);
    case Begin | Finish => OtherTargetKeeps(c, s, e);
    case Early(cur) => EarlyKeeps(c, s, cur);
    case Crash => CrashKeeps(c, s);
    case Serve => ServeKeeps(c, s);
    case Count => CountKeeps(c, s);
  }

  lemma {:induction false} RunKeeps(c: Config, ss: seq<State>, es: seq<Event>, k: nat)
    requires IsRun(c, ss, es) && k < |ss|
    ensures Inv(c, ss[k])
  {
    if k == 0 {
      InitInv(c, ss[0]);
    } else {
      RunKeeps(c, ss, es, k - 1);
      assert StepAt(c, ss, es, k - 1);
      StepKeeps(c, ss[k - 1], es[k - 1]);
    }
  }
}
