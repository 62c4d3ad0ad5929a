/**
  The hand-off between an instrumented target and the measurement daemon: two semaphores and
  one shared byte map, with target, daemon and tally-thread steps interleaved in any order.
 */
module HandOff {
  import opened Bits

  /** Size of the shared map. */
  const N: nat := 0x1_0000

  const ENDED: Byte := 0x80
  const UNNOTIFIED: Byte := 0x81

  /** Where the target's current run is. Each shared access is a step of its own. */
  datatype Target =
    | Off
    | MainTest
    | RecoverMark | RecoverGet | RecoverPost
    | MainGet
    | StartMark | StartWait
    | Clearing(i: nat)
    | Checking(i: nat, tainted: bool)
    | Running
    | EndMark | EndGet | EndPost
    | TargetAborted

  datatype Daemon =
    | ReadyGet | ReadyWait
    | Copying(i: nat)
    | ReadGet | ReadPost
    | Hashing(h: nat)
    | DaemonAborted

  /** A tally in progress: words scanned, ones counted, and the filter as it was when it began. */
  datatype Tally = NoTally | Scanning(w: nat, ones: nat, start: set<nat>)

  /** Bloom filter parameters: the hash index of a state for a seed, the number of seeds, the size in 64-bit words. */
  datatype Config = Config(index: (seq<Byte>, nat) -> nat, hashes: nat, words: nat) {
    ghost predicate Ok() {
      forall l, h :: index(l, h) < 64 * words
    }
  }

  datatype State = State(
    mem: seq<Byte>,              // the shared byte map; byte 0 doubles as the status byte
    rd: nat,                     // semaphore target -> daemon
    dr: nat,                     // semaphore daemon -> target
    target: Target,
    prev: nat,                   // the run's previous location
    daemon: Daemon,
    lstate: seq<Byte>,           // the daemon's private copy
    filter: set<nat>,            // bits set in the Bloom filter
    tally: Tally,
    // what the run did, for stating properties:
    hits: set<nat>,              // indices the current or last run stored to
    finished: seq<set<nat>>,     // hits of every run that ended or crashed, in order
    records: seq<seq<Byte>>      // every logic state the daemon took, in order
  )

  datatype Event =
    | Begin                      // the fuzzer starts a run
    | Advance                    // the target executes its next runtime step
    | Early(cur: nat)            // an instrumented block executes before the runtime's start call
    | Block(cur: nat)            // an instrumented block with location `cur` executes
    | Finish                     // the run reaches its destructor
    | Crash                      // the run dies
    | Serve                      // the daemon executes its next step
    | Count                      // the tally thread starts or scans a word

  predicate Enabled(c: Config, s: State, e: Event) {
    match e
    case Begin => s.target == Off
    case Advance => !s.target.Off? && !s.target.Running? && !s.target.TargetAborted? && (s.target.StartWait? ==> s.dr > 0)
    case Early(cur) => s.target.MainTest? && cur < N
    case Block(cur) => s.target.Running? && cur < N
    case Finish => s.target.Running?
    case Crash => !s.target.Off?
    case Serve => !s.daemon.DaemonAborted? && (s.daemon.ReadyWait? ==> s.rd > 0)
    case Count => true
  }

  predicate Sized(s: State) {
    && |s.mem| == N && |s.lstate| == N
    && (s.target.Clearing? ==> 1 <= s.target.i <= N)
    && (s.target.Checking? ==> 1 <= s.target.i <= N / 64)
    && s.prev < N / 2
    && (s.daemon.Copying? ==> s.daemon.i <= N)
  }

  /** The target, alive or crashed, has the map. */
  predicate TargetHolds(s: State)
    requires Sized(s)
  {
    match s.target
    case Off | MainTest => s.mem[0] > ENDED
    case MainGet | StartMark | StartWait => false
    case _ => true
  }

  /** A run is over and the daemon has not taken its logic state yet. */
  predicate Pending(s: State)
    requires Sized(s)
  {
    || s.rd > 0 || s.daemon.Copying?
    || (match s.target
        case Off | MainTest => s.mem[0] > ENDED
        case RecoverMark | RecoverGet | RecoverPost | EndMark | EndGet | EndPost => true
        case _ => false)
  }

  /** The run has taken the map and not ended yet. */
  predicate Began(t: Target) { t.Clearing? || t.Checking? || t.Running? }

  /** Death is recoverable while the status byte tells whether the run has the map, and none of the last run's marks are left. */
  predicate CrashSafe(s: State)
    requires Sized(s)
  {
    && (TargetHolds(s) <==> s.mem[0] > ENDED)
    && (s.target.Clearing? ==> forall j :: 1 <= j < N ==> s.mem[j] == 0)
  }

  /**
    A store before the start call does no harm unless it hides a crash from the status test, or marks
    a byte that the daemon has yet to copy for the run before.
   */
  predicate EarlySafe(s: State, at: nat)
    requires Sized(s)
  {
    if at == 0 then s.mem[0] <= ENDED
    else at in s.hits || !Pending(s) || (s.daemon.Copying? && at < s.daemon.i)
  }

  /** What the environment is trusted with. */
  predicate Allowed(s: State, e: Event)
    requires Sized(s)
  {
    && (e.Early? ==> EarlySafe(s, Xor(s.prev, e.cur)))
    && (e.Crash? ==> CrashSafe(s))
  }

  function TargetNext(s: State): (s': State)
    requires Sized(s)
  {
    match s.target
    case MainTest => s.(target := if s.mem[0] > ENDED then RecoverMark else MainGet)
    case RecoverMark => s.(mem := s.mem[0 := ENDED], target := RecoverGet)
    case RecoverGet => s.(target := if s.rd == 0 then RecoverPost else MainGet)
    case RecoverPost => s.(rd := s.rd + 1, target := MainGet)
    case MainGet => s.(target := if s.dr > 1 then TargetAborted else StartMark)
    case StartMark => s.(mem := s.mem[0 := UNNOTIFIED], target := StartWait)
    case StartWait => if s.dr > 0 then s.(dr := s.dr - 1, target := Clearing(1), hits := {}) else s
    case Clearing(i) =>
      if i < N then s.(mem := s.mem[i := 0], target := Clearing(i + 1))
      else s.(target := Checking(1, false))
    case Checking(i, tainted) =>
      if i < N / 64 then s.(target := Checking(i + 1, tainted || s.mem[64 * i] != 0))
      else s.(target := if tainted then TargetAborted else Running)
    case EndMark => s.(mem := s.mem[0 := ENDED], target := EndGet)
    case EndGet => s.(target := if s.rd == 0 then EndPost else Off)
    case EndPost => s.(rd := s.rd + 1, target := Off)
    case _ => s
  }

  function DaemonNext(c: Config, s: State): (s': State)
    requires Sized(s)
  {
    match s.daemon
    case ReadyGet => s.(daemon := if s.rd > 1 then DaemonAborted else ReadyWait)
    case ReadyWait => if s.rd > 0 then s.(rd := s.rd - 1, daemon := Copying(0)) else s
    case Copying(i) =>
      if i < N then s.(lstate := s.lstate[i := s.mem[i]], daemon := Copying(i + 1))
      else s.(daemon := ReadGet, records := s.records + [s.lstate])
    case ReadGet => s.(daemon := if s.dr == 0 then ReadPost else Hashing(0))
    case ReadPost => s.(dr := s.dr + 1, daemon := Hashing(0))
    case Hashing(h) =>
      if h < c.hashes then s.(filter := s.filter + {c.index(s.lstate, h)}, daemon := Hashing(h + 1))
      else s.(daemon := ReadyGet)
    case DaemonAborted => s
  }

  /** The bits of the filter in word `w`. */
  function WordBits(filter: set<nat>, w: nat): set<nat> {
    set b | b in filter && b / 64 == w
  }

  function TallyNext(c: Config, s: State): (s': State) {
    match s.tally
    case NoTally => s.(tally := Scanning(0, 0, s.filter))
    case Scanning(w, ones, start) =>
      if w < c.words then s.(tally := Scanning(w + 1, ones + |WordBits(s.filter, w)|, start))
      else s.(tally := NoTally)
  }

  function Next(c: Config, s: State, e: Event): (s': State)
    requires Sized(s) && Enabled(c, s, e)
  {
    match e
    case Begin => s.(target := MainTest, prev := 0)
    case Advance => TargetNext(s)
    case Early(cur) =>
      var at := Xor(s.prev, cur);
      if at < N then s.(mem := s.mem[at := 1], prev := cur / 2) else s
    case Block(cur) =>
      var at := Xor(s.prev, cur);
      if at < N then s.(mem := s.mem[at := 1], hits := s.hits + {at}, prev := cur / 2) else s
    case Finish => s.(target := EndMark, finished := s.finished + [s.hits])
    case Crash => s.(target := Off, finished := if Began(s.target) then s.finished + [s.hits] else s.finished)
    case Serve => DaemonNext(c, s)
    case Count => TallyNext(c, s)
  }

  /** Just after the constructor: an all-zero map with the status byte set, and the token with the daemon. */
  ghost predicate Init(s: State) {
    && s.mem == seq(N, i => if i == 0 then ENDED else 0)
    && |s.lstate| == N
    && s.rd == 0 && s.dr == 1 && s.target == Off && s.prev == 0 && s.daemon == ReadyGet
    && s.filter == {} && s.tally == NoTally && s.hits == {} && s.finished == [] && s.records == []
  }
}
