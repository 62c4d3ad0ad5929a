/** Main results about the hand-off: safety, exact records, progress, the filter and its tally. */
module HandOffTheorems {
  import opened Bits
  import opened HandOff
  import opened HandOffInvariant
  import Bloom
  import Murmur

  // ----- safety -----

  /** The target may be writing to the map. */
  predicate TargetWrites(s: State) {
    s.target.Clearing? || s.target.Running?
  }

  /**
    Over every run: one token, both semaphores at most one, no sanity check ever fires, and the
    daemon never copies or is about to hand the map over while a run clears it or writes to it.
   */
  lemma Safety(c: Config, ss: seq<State>, es: seq<Event>, k: nat)
    requires IsRun(c, ss, es) && k < |ss|
    ensures Sized(ss[k]) && ss[k].rd + ss[k].dr + One(TargetHolds(ss[k])) + One(DaemonHolds(ss[k])) == 1
    ensures !ss[k].target.TargetAborted? && !ss[k].daemon.DaemonAborted?
    ensures !(DaemonHolds(ss[k]) && TargetWrites(ss[k]))
  {
    RunKeeps(c, ss, es, k);
  }

  // ----- records -----

  /** The event ends a run that has taken the map. */
  predicate EndsRun(s: State, e: Event) { e.Finish? || (e.Crash? && Began(s.target)) }

  /** How many runs ended or crashed in the first `k` steps. */
  function Ends(ss: seq<State>, es: seq<Event>, k: nat): (n: nat)
    requires k <= |es| && k < |ss|
  {
    if k == 0 then 0 else Ends(ss, es, k - 1) + One(EndsRun(ss[k - 1], es[k - 1]))
  }

  lemma {:induction false} FinishedCount(c: Config, ss: seq<State>, es: seq<Event>, k: nat)
    requires IsRun(c, ss, es) && k < |ss|
    ensures |ss[k].finished| == Ends(ss, es, k)
  {
    if k > 0 {
      FinishedCount(c, ss, es, k - 1);
      StepGrows(c, ss, es, k - 1);
    }
  }

  lemma StepGrows(c: Config, ss: seq<State>, es: seq<Event>, k: nat)
    requires IsRun(c, ss, es) && k < |es|
    ensures |ss[k + 1].finished| == |ss[k].finished| + One(EndsRun(ss[k], es[k]))
    ensures Grown(ss[k], ss[k + 1])
  {
    assert StepAt(c, ss, es, k);
    HistoryGrows(c, ss[k], es[k]);
  }

  lemma HistoryGrows(c: Config, s: State, e: Event)
    requires Sized(s) && Enabled(c, s, e)
    ensures var s' := Next(c, s, e);
            |s'.finished| == |s.finished| + One(EndsRun(s, e)) && Grown(s, s')
  {
  }

  /** Nothing recorded in `s` is lost or changed in `s'`. */
  predicate Grown(s: State, s': State) {
    s.records <= s'.records && s.finished <= s'.finished && s.filter <= s'.filter
  }

  lemma GrownOn(a: State, b: State, c: State)
    requires Grown(a, b) && Grown(b, c)
    ensures Grown(a, c)
  {
  }

  // ----- what a run hits -----

  /** The edges of a path: each location combined with half of the one before it, the first with `prev`. */
  function Edges(locs: seq<nat>, prev: nat): set<nat> {
    set k | 0 <= k < |locs| :: EdgeAt(locs, prev, k)
  }

  function EdgeAt(locs: seq<nat>, prev: nat, k: nat): nat
    requires k < |locs|
  {
    Xor(locs[k], if k == 0 then prev else locs[k - 1] / 2)
  }

  /** The target takes the map: its wait is over. */
  predicate TakesMap(s: State, e: Event) { e == Advance && s.target.StartWait? && s.dr > 0 }

  /** The locations of the blocks executed since the map was last taken, among the first `k` events. */
  function Path(ss: seq<State>, es: seq<Event>, k: nat): (locs: seq<nat>)
    requires k <= |es| && k < |ss|
  {
    if k == 0 || TakesMap(ss[k - 1], es[k - 1]) then []
    else Path(ss, es, k - 1) + if es[k - 1].Block? then [es[k - 1].cur] else []
  }

  /** Half of the location of the last block executed before the start call, since the run began. */
  function EarlyHalf(es: seq<Event>, k: nat): (prev: nat)
    requires k <= |es|
  {
    if k == 0 || es[k - 1].Begin? then 0
    else if es[k - 1].Early? then es[k - 1].cur / 2
    else EarlyHalf(es, k - 1)
  }

  /** The previous location that a run started with when it last took the map. */
  function PathStart(ss: seq<State>, es: seq<Event>, k: nat): (prev: nat)
    requires k <= |es| && k < |ss|
  {
    if k == 0 then 0
    else if TakesMap(ss[k - 1], es[k - 1]) then EarlyHalf(es, k - 1)
    else PathStart(ss, es, k - 1)
  }

  /** The edges of the path since the map was last taken. */
  function RunEdges(ss: seq<State>, es: seq<Event>, k: nat): set<nat>
    requires k <= |es| && k < |ss|
  {
    Edges(Path(ss, es, k), PathStart(ss, es, k))
  }

  /** The location before the next block, while a run has the map. */
  function LastHalf(locs: seq<nat>, prev: nat): nat { if locs == [] then prev else locs[|locs| - 1] / 2 }

  lemma EdgesNext(locs: seq<nat>, prev: nat, cur: nat)
    ensures Edges(locs + [cur], prev) == Edges(locs, prev) + {Xor(LastHalf(locs, prev), cur)}
  {
    var more := locs + [cur];
    XorCommutes(cur, LastHalf(locs, prev));
    assert forall k :: 0 <= k < |locs| ==> EdgeAt(more, prev, k) == EdgeAt(locs, prev, k);
    assert EdgeAt(more, prev, |locs|) == Xor(LastHalf(locs, prev), cur);
  }

  /** A run that is before its start call: its blocks are early ones. */
  predicate BeforeStart(t: Target) {
    t.MainTest? || t.RecoverMark? || t.RecoverGet? || t.RecoverPost? || t.MainGet? || t.StartMark? || t.StartWait?
  }

  /** What a state remembers of the path. */
  ghost predicate Follows(s: State, locs: seq<nat>, start: nat, early: nat) {
    && s.hits == Edges(locs, start)
    && (BeforeStart(s.target) ==> s.prev == early)
    && (Began(s.target) ==> s.prev == LastHalf(locs, start))
  }

  lemma BlockFollows(c: Config, s: State, cur: nat, locs: seq<nat>, start: nat, early: nat)
    requires Sized(s) && Enabled(c, s, Block(cur)) && Follows(s, locs, start, early)
    ensures Follows(Next(c, s, Block(cur)), locs + [cur], start, early)
  {
    StoreInMap(s.prev, cur);
    EdgesNext(locs, start, cur);
  }

  lemma AdvanceFollows(c: Config, s: State, locs: seq<nat>, start: nat, early: nat)
    requires Sized(s) && Enabled(c, s, Advance) && Follows(s, locs, start, early)
    ensures if TakesMap(s, Advance) then Follows(Next(c, s, Advance), [], early, early)
            else Follows(Next(c, s, Advance), locs, start, early)
  {
    assert Edges([], early) == {};
  }

  lemma OtherFollows(c: Config, s: State, e: Event, locs: seq<nat>, start: nat, early: nat)
    requires Sized(s) && Enabled(c, s, e) && Follows(s, locs, start, early) && !e.Block? && !e.Advance?
    ensures Follows(Next(c, s, e), locs, start, if e.Begin? then 0 else if e.Early? then e.cur / 2 else early)
  {
    if e.Early? { StoreInMap(s.prev, e.cur); }
  }

  /** In every state of a run, what it remembers is what the events say. */
  lemma {:induction false} HitsAreEdges(c: Config, ss: seq<State>, es: seq<Event>, k: nat)
    requires IsRun(c, ss, es) && k < |ss|
    ensures Follows(ss[k], Path(ss, es, k), PathStart(ss, es, k), EarlyHalf(es, k))
  {
    if k == 0 {
      assert Edges([], 0) == {};
    } else {
      HitsAreEdges(c, ss, es, k - 1);
      assert StepAt(c, ss, es, k - 1);
      var s, e := ss[k - 1], es[k - 1];
      var locs, start, early := Path(ss, es, k - 1), PathStart(ss, es, k - 1), EarlyHalf(es, k - 1);
      assert locs + [] == locs;
      match e
      case Block(cur) => BlockFollows(c, s, cur, locs, start, early);
      case Advance => AdvanceFollows(c, s, locs, start, early);
      case _ => OtherFollows(c, s, e, locs, start, early);
    }
  }

  lemma EndingAppends(c: Config, s: State, e: Event)
    requires Sized(s) && Enabled(c, s, e) && EndsRun(s, e)
    ensures Next(c, s, e).finished == s.finished + [s.hits]
  {
  }

  /** A run that is over hit exactly the edges of its path. */
  lemma {:induction false} FinishedIsPath(c: Config, ss: seq<State>, es: seq<Event>, b: nat, k: nat)
    requires IsRun(c, ss, es) && b < k < |ss| && EndsRun(ss[b], es[b])
    ensures Ends(ss, es, b) < |ss[k].finished| && ss[k].finished[Ends(ss, es, b)] == RunEdges(ss, es, b)
    decreases k
  {
    FinishedCount(c, ss, es, b);
    if k == b + 1 {
      HitsAreEdges(c, ss, es, b);
      assert StepAt(c, ss, es, b);
      EndingAppends(c, ss[b], es[b]);
    } else {
      FinishedIsPath(c, ss, es, b, k - 1);
      StepGrows(c, ss, es, k - 1);
    }
  }

  /**
    Every run that is over is recorded exactly once and in order, with exactly the edges of its path,
    except that the last one may still be on its way. Once a later run executes, none is.
   */
  lemma RecordedOnce(c: Config, ss: seq<State>, es: seq<Event>, k: nat)
    requires IsRun(c, ss, es) && k < |ss|
    ensures |ss[k].records| <= Ends(ss, es, k) <= |ss[k].records| + 1
    ensures ss[k].target.Running? ==> |ss[k].records| == Ends(ss, es, k)
    ensures |ss[k].finished| == Ends(ss, es, k)
    ensures forall i :: 0 <= i < |ss[k].records| ==> Marks(ss[k].records[i], ss[k].finished[i])
    ensures forall b :: 0 <= b < k && EndsRun(ss[b], es[b]) && Ends(ss, es, b) < |ss[k].records| ==>
              Marks(ss[k].records[Ends(ss, es, b)], RunEdges(ss, es, b))
  {
    RunKeeps(c, ss, es, k);
    FinishedCount(c, ss, es, k);
    forall b | 0 <= b < k && EndsRun(ss[b], es[b]) && Ends(ss, es, b) < |ss[k].records|
      ensures Marks(ss[k].records[Ends(ss, es, b)], RunEdges(ss, es, b))
    {
      FinishedIsPath(c, ss, es, b, k);
    }
  }

  /** Recorded states and finished runs are never changed afterwards. */
  lemma {:induction false} HistoryStays(c: Config, ss: seq<State>, es: seq<Event>, j: nat, k: nat)
    requires IsRun(c, ss, es) && j <= k < |ss|
    ensures Grown(ss[j], ss[k])
  {
    if j < k {
      HistoryStays(c, ss, es, j, k - 1);
      StepGrows(c, ss, es, k - 1);
      GrownOn(ss[j], ss[k - 1], ss[k]);
    }
  }

  // ----- progress -----

  /** Daemon steps left until it hands the map to the target, when the token is on the daemon's side. */
  function DaemonWork(c: Config, s: State): (n: nat)
    requires Sized(s)
  {
    match s.daemon
    case ReadPost => 1
    case ReadGet => 2
    case Copying(i) => N - i + 3
    case ReadyWait => N + 4
    case ReadyGet => N + 5
    case Hashing(h) => (if h <= c.hashes then c.hashes - h else 0) + N + 6
    case DaemonAborted => 0
  }

  /** A target waiting for the map is served: the daemon can move, and each move brings the hand-over nearer. */
  lemma WaiterIsServed(c: Config, s: State)
    requires Inv(c, s) && s.target.StartWait? && s.dr == 0
    ensures Enabled(c, s, Serve)
    ensures var s' := Next(c, s, Serve);
            s'.target.StartWait? && (s'.dr == 1 || (s'.dr == 0 && DaemonWork(c, s') < DaemonWork(c, s)))
  {
  }

  /** How often the daemon moves. */
  function Served(es: seq<Event>): (n: nat) {
    if es == [] then 0 else One(es[0].Serve?) + Served(es[1..])
  }

  lemma LaterSteps(c: Config, ss: seq<State>, es: seq<Event>)
    requires Steps(c, ss, es) && es != []
    ensures Steps(c, ss[1..], es[1..])
  {
    forall i | 0 <= i < |es[1..]|
      ensures StepAt(c, ss[1..], es[1..], i)
    {
      assert StepAt(c, ss, es, i + 1);
    }
  }

  /** While a target waits without a token, only the daemon and the tally can move. */
  lemma OnlyOthersMove(c: Config, s: State, e: Event)
    requires Inv(c, s) && s.target.StartWait? && s.dr == 0 && Enabled(c, s, e) && Allowed(s, e)
    ensures e == Serve || e == Count
    ensures e == Count ==> var s' := Next(c, s, e);
            s'.target.StartWait? && s'.dr == 0 && DaemonWork(c, s') == DaemonWork(c, s)
  {
  }

  /** So, whatever happens, a waiting target has its token by the time the daemon has moved DaemonWork times. */
  lemma {:induction false} WaitIsBounded(c: Config, ss: seq<State>, es: seq<Event>) returns (k: nat)
    requires Steps(c, ss, es) && Inv(c, ss[0]) && ss[0].target.StartWait?
    requires Served(es) >= DaemonWork(c, ss[0])
    ensures k < |ss| && ss[k].target.StartWait? && ss[k].dr == 1
    decreases |es|
  {
    var s := ss[0];
    if s.dr > 0 {
      return 0;
    }
    assert es != [];
    assert StepAt(c, ss, es, 0);
    OnlyOthersMove(c, s, es[0]);
    StepKeeps(c, s, es[0]);
    LaterSteps(c, ss, es);
    if es[0] == Serve {
      WaiterIsServed(c, s);
      if ss[1].dr == 1 {
        return 1;
      }
    }
    k := WaitIsBounded(c, ss[1..], es[1..]);
    k := k + 1;
  }

  /** Target steps left until it posts, when runs end as soon as they can and a new one is always started. */
  function TargetWork(s: State): (n: nat)
    requires Sized(s)
  {
    match s.target
    case EndPost => 1
    case EndGet => 2
    case EndMark => 3
    case Running => 4
    case Checking(i, _) => N / 64 - i + 5
    case Clearing(i) => N - i + N / 64 + 6
    case StartWait => 2 * N + 7
    case StartMark => 2 * N + 8
    case MainGet => 2 * N + 9
    case RecoverPost => 1
    case RecoverGet => 2
    case RecoverMark => 3
    case MainTest => if s.mem[0] > ENDED then 4 else 2 * N + 10
    case Off => if s.mem[0] > ENDED then 5 else 2 * N + 11
    case TargetAborted => 0
  }

  /** The target's move when runs end as soon as they can. */
  function Onward(s: State): (e: Event) {
    if s.target.Off? then Begin else if s.target.Running? then Finish else Advance
  }

  /** A daemon waiting for a record gets one, crashed runs included: the target side is never stuck. */
  lemma DaemonIsServed(c: Config, s: State)
    requires Inv(c, s) && s.daemon.ReadyWait? && s.rd == 0
    ensures Enabled(c, s, Onward(s)) && Allowed(s, Onward(s))
    ensures var s' := Next(c, s, Onward(s));
            s'.daemon.ReadyWait? && (s'.rd == 1 || (s'.rd == 0 && TargetWork(s') < TargetWork(s)))
  {
  }

  /** The target side moves onward, with tally steps in between. */
  predicate MovesOnward(ss: seq<State>, es: seq<Event>) {
    |ss| == |es| + 1 && forall i :: 0 <= i < |es| ==> es[i] == Count || es[i] == Onward(ss[i])
  }

  function Moves(es: seq<Event>): (n: nat) {
    if es == [] then 0 else One(es[0] != Count) + Moves(es[1..])
  }

  /** So a waiting daemon has a record to take by the time the target side has moved TargetWork times. */
  lemma {:induction false} RecordIsBounded(c: Config, ss: seq<State>, es: seq<Event>) returns (k: nat)
    requires Steps(c, ss, es) && MovesOnward(ss, es) && Inv(c, ss[0]) && ss[0].daemon.ReadyWait?
    requires Moves(es) >= TargetWork(ss[0])
    ensures k < |ss| && ss[k].daemon.ReadyWait? && ss[k].rd == 1
    decreases |es|
  {
    var s := ss[0];
    if s.rd > 0 {
      return 0;
    }
    assert es != [];
    assert StepAt(c, ss, es, 0);
    StepKeeps(c, s, es[0]);
    LaterSteps(c, ss, es);
    if es[0] != Count {
      DaemonIsServed(c, s);
      if ss[1].rd == 1 {
        return 1;
      }
    }
    k := RecordIsBounded(c, ss[1..], es[1..]);
    k := k + 1;
  }

  // ----- the Bloom filter -----

  /** Between records the filter is exactly the union of the hash indices of everything recorded. */
  lemma FilterIsUnion(c: Config, ss: seq<State>, es: seq<Event>, k: nat)
    requires IsRun(c, ss, es) && k < |ss|
    requires ss[k].daemon.ReadyGet? || ss[k].daemon.ReadyWait? || ss[k].daemon.Copying?
    ensures ss[k].filter == FilterOf(c, ss[k].records)
  {
    RunKeeps(c, ss, es, k);
  }

  /** The daemon's own parameters: its hash for each seed, modulo the filter's bits. */
  function DaemonConfig(hashes: nat, words: nat): Config
    requires words > 0
  {
    Config((l: seq<Byte>, h: nat) => if |l| < Murmur.M && h < Murmur.M then Bloom.Index(l, h, 64 * words) else 0,
           hashes, words)
  }

  /** With them every index is inside the filter, and recording a state sets what the filter's own method sets. */
  lemma DaemonConfigOk(hashes: nat, words: nat, l: seq<Byte>)
    requires words > 0 && hashes < 256 && |l| < Murmur.M
    ensures DaemonConfig(hashes, words).Ok()
    ensures Indices(DaemonConfig(hashes, words), l, hashes) == Bloom.IndexSet(l, hashes, 8 * (8 * words))
  {
    var c := DaemonConfig(hashes, words);
    assert forall h :: 0 <= h < hashes ==> c.index(l, h) == Bloom.Index(l, h, 64 * words);
  }

  ghost function States(records: seq<seq<Byte>>): set<seq<Byte>> {
    set l | l in records
  }

  /** The filter forgets order and repetition: only the set of recorded states matters. */
  lemma FilterOfStates(c: Config, a: seq<seq<Byte>>, b: seq<seq<Byte>>)
    requires States(a) == States(b)
    ensures FilterOf(c, a) == FilterOf(c, b)
  {
    FilterWithin(c, a, b);
    FilterWithin(c, b, a);
  }

  lemma FilterWithin(c: Config, a: seq<seq<Byte>>, b: seq<seq<Byte>>)
    requires States(a) <= States(b)
    ensures FilterOf(c, a) <= FilterOf(c, b)
  {
    forall x | x in FilterOf(c, a)
      ensures x in FilterOf(c, b)
    {
      var i, h :| 0 <= i < |a| && 0 <= h < c.hashes && x == c.index(a[i], h);
      assert a[i] in States(a);
      var j :| 0 <= j < |b| && b[j] == a[i];
      assert c.index(b[j], h) == x;
    }
  }

  lemma {:induction false} IndicesSize(c: Config, l: seq<Byte>, hashes: nat)
    ensures |Indices(c, l, hashes)| <= hashes
  {
    if hashes > 0 {
      IndicesSize(c, l, hashes - 1);
      assert Indices(c, l, hashes) == Indices(c, l, hashes - 1) + {c.index(l, hashes - 1)};
    }
  }

  lemma OneMore(h: nat, n: nat)
    ensures h * (n + 1) == h * n + h
  {
  }

  /** At most one bit per hash for each distinct state. */
  lemma {:induction false} FilterSize(c: Config, records: seq<seq<Byte>>)
    ensures |FilterOf(c, records)| <= c.hashes * |States(records)|
  {
    if records == [] {
      assert FilterOf(c, records) == {};
    } else {
      var n := |records| - 1;
      var before, last := records[..n], records[n];
      FilterSize(c, before);
      FilterOfAdded(c, records);
      assert States(records) == States(before) + {last};
      if last in States(before) {
        FilterOfStates(c, records, before);
      } else {
        IndicesSize(c, last, c.hashes);
        assert |States(records)| == |States(before)| + 1;
        OneMore(c.hashes, |States(before)|);
      }
    }
  }

  // ----- the tally -----

  /** The bits of the first `w` words are those of the first bytes. */
  lemma UpToIsPrefix(s: seq<bv8>, w: nat)
    requires 8 * w <= |s|
    ensures UpTo(Bloom.BitSet(s), w) == Bloom.BitSet(s[..8 * w])
    ensures |UpTo(Bloom.BitSet(s), w)| == Bloom.WordSum(s, w)
  {
    Bloom.UnpackPrefix(s, 8 * w);
    Bloom.WordSumIs(s, w);
    Bloom.CountIsSize(Bloom.Unpack(s[..8 * w]));
  }

  /** What the tally adds for a word is the population count of that word of the filter's bytes. */
  lemma WordBitsAreCounted(s: seq<bv8>, w: nat)
    requires 8 * w + 8 <= |s|
    ensures |WordBits(Bloom.BitSet(s), w)| == Bloom.PopCount(s[8 * w..8 * w + 8])
  {
    UpToIsPrefix(s, w);
    UpToIsPrefix(s, w + 1);
    UpToNext(Bloom.BitSet(s), w);
  }

  lemma AllUpTo(f: set<nat>, words: nat)
    requires forall b :: b in f ==> b < 64 * words
    ensures UpTo(f, words) == f
  {
  }

  /**
    A tally that scans the filter while the daemon keeps setting bits reports a count between
    the number of ones when it began and the number of ones when it ended.
   */
  lemma TallyBetween(c: Config, ss: seq<State>, es: seq<Event>, k: nat)
    requires c.Ok() && IsRun(c, ss, es) && k < |ss|
    requires ss[k].tally.Scanning? && ss[k].tally.w == c.words
    ensures |ss[k].tally.start| <= ss[k].tally.ones <= |ss[k].filter|
  {
    RunKeeps(c, ss, es, k);
    BitsInRange(c, ss, es, k);
    AllUpTo(ss[k].tally.start, c.words);
    AllUpTo(ss[k].filter, c.words);
  }

  /** Every bit set lies in the filter: the bogus-index exit is never taken. */
  lemma {:induction false} BitsInRange(c: Config, ss: seq<State>, es: seq<Event>, k: nat)
    requires c.Ok() && IsRun(c, ss, es) && k < |ss|
    ensures forall b :: b in ss[k].filter ==> b < 64 * c.words
  {
    if k > 0 {
      BitsInRange(c, ss, es, k - 1);
      var s, e := ss[k - 1], es[k - 1];
      assert StepAt(c, ss, es, k - 1);
      if e.Serve? && s.daemon.Hashing? {
        assert c.index(s.lstate, s.daemon.h) < 64 * c.words;
      }
    }
  }

  /** What a tally compares with is the filter of the state it began in. */
  lemma {:induction false} TallyStart(c: Config, ss: seq<State>, es: seq<Event>, k: nat) returns (j: nat)
    requires IsRun(c, ss, es) && k < |ss| && ss[k].tally.Scanning?
    ensures j < k && ss[j].tally.NoTally? && ss[k].tally.start == ss[j].filter
  {
    assert k > 0 ==> StepAt(c, ss, es, k - 1);
    if ss[k - 1].tally.NoTally? {
      j := k - 1;
    } else {
      j := TallyStart(c, ss, es, k - 1);
    }
  }

  // ----- why each assumption is needed -----

  /** Runs `es` from `s` with no regard to what the environment is trusted with. */
  function After(c: Config, s: State, es: seq<Event>): (s': State)
    requires Sized(s)
    ensures Sized(s')
    decreases |es|
  {
    if es == [] || !Enabled(c, s, es[0]) || !Sized(Next(c, s, es[0])) then s
    else After(c, Next(c, s, es[0]), es[1..])
  }

  /** Neither side can move: the target waits for the map and the daemon for a record. */
  predicate Deadlocked(s: State) {
    s.target.StartWait? && s.dr == 0 && s.daemon.ReadyWait? && s.rd == 0
  }

  /** A block whose location equals the previous one stores to the status byte; a crash after that goes unseen. */
  lemma StatusStoreDeadlocks(c: Config, s: State)
    requires Inv(c, s) && s.target.Running? && s.daemon.ReadyWait?
    ensures Deadlocked(After(c, s, [Block(s.prev), Crash, Begin, Advance, Advance, Advance]))
  {
    XorSelf(s.prev);
    var s1 := Next(c, s, Block(s.prev));
    assert s1.mem[0] == 1;
    var s2 := Next(c, s1, Crash);
    var s3 := Next(c, s2, Begin);
    var s4 := Next(c, s3, Advance);
    var s5 := Next(c, s4, Advance);
    var s6 := Next(c, s5, Advance);
    assert After(c, s3, [Advance, Advance, Advance]) == s6 by {
      assert After(c, s5, [Advance]) == s6;
      assert After(c, s4, [Advance, Advance]) == s6;
    }
    assert After(c, s2, [Begin, Advance, Advance, Advance]) == s6;
    assert After(c, s1, [Crash, Begin, Advance, Advance, Advance]) == s6;
  }

  /** A run killed while it still waits for the map looks crashed, and a second token appears. */
  lemma KilledWaiterDoublesToken(c: Config, s: State)
    requires Inv(c, s) && s.target.StartWait? && s.dr == 1
    ensures var t := After(c, s, [Crash, Begin, Advance, Advance, Advance, Advance]);
            t.rd + t.dr == 2
  {
    var s1 := Next(c, s, Crash);
    var s2 := Next(c, s1, Begin);
    var s3 := Next(c, s2, Advance);
    var s4 := Next(c, s3, Advance);
    var s5 := Next(c, s4, Advance);
    var s6 := Next(c, s5, Advance);
    assert After(c, s5, [Advance]) == s6;
    assert After(c, s4, [Advance, Advance]) == s6;
    assert After(c, s3, [Advance, Advance, Advance]) == s6;
    assert After(c, s2, [Advance, Advance, Advance, Advance]) == s6;
    assert After(c, s1, [Begin, Advance, Advance, Advance, Advance]) == s6;
  }

  /** The daemon alone, to the end of its copy. */
  function CopyAll(c: Config, s: State): (s': State)
    requires Sized(s) && s.daemon.Copying?
    ensures |s'.records| == |s.records| + 1
    decreases N - s.daemon.i
  {
    var s' := Next(c, s, Serve);
    if s.daemon.i < N then CopyAll(c, s') else s'
  }

  /** What is in the map, or was copied from it, is in the record. */
  lemma {:induction false} CopyTakes(c: Config, s: State, at: nat)
    requires Sized(s) && s.daemon.Copying? && at < N
    ensures CopyAll(c, s).records == s.records + [CopyAll(c, s).lstate] && |CopyAll(c, s).lstate| == N
    ensures CopyAll(c, s).lstate[at] == if at < s.daemon.i then s.lstate[at] else s.mem[at]
    decreases N - s.daemon.i
  {
    if s.daemon.i < N {
      CopyTakes(c, Next(c, s, Serve), at);
    }
  }

  /** An unsafe store before the start call, while the daemon copies, ends up in the previous run's record. */
  lemma EarlyStoreTaintsRecord(c: Config, s: State, cur: nat)
    requires Inv(c, s) && Enabled(c, s, Early(cur)) && s.daemon.Copying?
    requires Xor(s.prev, cur) > 0 && !EarlySafe(s, Xor(s.prev, cur))
    ensures var t := CopyAll(c, Next(c, s, Early(cur)));
            t.records[..|s.records|] == s.records && !Marks(t.records[|s.records|], s.finished[|s.records|])
  {
    StoreInMap(s.prev, cur);
    CopyTakes(c, Next(c, s, Early(cur)), Xor(s.prev, cur));
  }
}
