/**
  The enclave server's worker pool, as an interleaving of the accept loop with
  one handler per admitted connection. A counting semaphore of `maxWorkers`
  permits bounds the handlers; the accept loop never waits for one.

  Deadlines appear as budgets: a read or a write in progress may continue for a
  bounded number of steps before the deadline makes it fail.
 */
module WorkerPool {
  import opened Prelude
  import opened Decimal

  datatype Config = Config(maxWorkers: nat, readBudget: nat, writeBudget: nat)

  /** Where a handler is; `Unwinding` and `Releasing` are its deferred calls. */
  datatype Phase =
    | SettingReadDeadline
    | Reading(budget: nat)
    | DecodingBase
    | Dispatching
    | SettingWriteDeadline
    | Encoding
    | Writing(budget: nat)
    | Unwinding
    | Releasing

  datatype Stage =
    | Selecting            // accepted, the accept loop is about to ask for a permit
    | Rejecting            // no permit was free, the accept loop is about to close it
    | Rejected
    | Serving(phase: Phase)
    | Finished

  /** A connection, with what was done to it so far. */
  datatype Connection = Connection(
    stage: Stage,
    closes: nat,
    writes: nat,
    requestRead: bool,
    baseDecoded: bool,
    writeDeadlineSet: bool)

  /** All connections ever accepted, oldest first, and the permits in use. */
  datatype State = State(permits: nat, listening: bool, conns: seq<Connection>)

  const INITIAL := State(0, true, [])

  /** One step of a handler. */
  datatype Move =
    | SetReadDeadline(ok: bool)
    | ReadChunk
    | ReadEnd(ok: bool)
    | DecodeBase(ok: bool)
    | Dispatch
    | SetWriteDeadline(ok: bool)
    | Encode(ok: bool)
    | WriteChunk
    | WriteEnd(ok: bool)
    | Panic
    | Close
    | Release

  datatype Action =
    | AcceptError
    | Accept
    | TakePermit
    | FindFull
    | CloseRejected
    | Worker(conn: nat, move: Move)

  predicate InBody(p: Phase) {
    p != Unwinding && p != Releasing
  }

  /** `handleConnection` from `phase` by one move, or nothing if that move is not next. */
  function Advance(cfg: Config, k: Connection, m: Move): Option<Connection>
    requires k.stage.Serving?
  {
    var unwound := k.(stage := Serving(Unwinding));
    match (k.stage.phase, m)
    case (SettingReadDeadline, SetReadDeadline(ok)) =>
      Some(if ok then k.(stage := Serving(Reading(cfg.readBudget))) else unwound)
    case (Reading(budget), ReadChunk) =>
      if budget > 0 then Some(k.(stage := Serving(Reading(budget - 1)))) else None
    case (Reading(budget), ReadEnd(ok)) =>
      if !ok then Some(unwound)
      else if budget > 0 then Some(k.(stage := Serving(DecodingBase), requestRead := true))
      else None
    case (DecodingBase, DecodeBase(ok)) =>
      Some(if ok then k.(stage := Serving(Dispatching), baseDecoded := true) else unwound)
    case (Dispatching, Dispatch) =>
      Some(k.(stage := Serving(SettingWriteDeadline)))
    case (SettingWriteDeadline, SetWriteDeadline(ok)) =>
      Some(if ok then k.(stage := Serving(Encoding), writeDeadlineSet := true) else unwound)
    case (Encoding, Encode(ok)) =>
      Some(if ok then k.(stage := Serving(Writing(cfg.writeBudget)), writes := k.writes + 1) else unwound)
    case (Writing(budget), WriteChunk) =>
      if budget > 0 then Some(k.(stage := Serving(Writing(budget - 1)))) else None
    case (Writing(budget), WriteEnd(ok)) =>
      if !ok || budget > 0 then Some(unwound) else None
    case (Unwinding, Close) =>
      Some(k.(stage := Serving(Releasing), closes := k.closes + 1))
    case (Releasing, Release) =>
      Some(k.(stage := Finished))
    case (phase, Panic) =>
      if InBody(phase) then Some(unwound) else None
    case _ => None
  }

  /** One step of the server, or nothing if that action cannot happen now. */
  function Step(cfg: Config, s: State, a: Action): Option<State> {
    var last := |s.conns| - 1;
    match a
    case AcceptError =>
      if s.listening then Some(s) else None
    case Accept =>
      if s.listening then
        Some(s.(listening := false, conns := s.conns + [Connection(Selecting, 0, 0, false, false, false)]))
      else None
    case TakePermit =>
      if s.conns != [] && s.conns[last].stage == Selecting && s.permits < cfg.maxWorkers then
        Some(State(s.permits + 1, true, s.conns[last := s.conns[last].(stage := Serving(SettingReadDeadline))]))
      else None
    case FindFull =>
      if s.conns != [] && s.conns[last].stage == Selecting && s.permits >= cfg.maxWorkers then
        Some(s.(conns := s.conns[last := s.conns[last].(stage := Rejecting)]))
      else None
    case CloseRejected =>
      if s.conns != [] && s.conns[last].stage == Rejecting then
        var k := s.conns[last];
        Some(s.(listening := true, conns := s.conns[last := k.(stage := Rejected, closes := k.closes + 1)]))
      else None
    case Worker(c, m) =>
      if c >= |s.conns| || !s.conns[c].stage.Serving? then None
      else if m == Release && s.permits == 0 then None  // receiving from an empty semaphore blocks
      else
        match Advance(cfg, s.conns[c], m)
        case None => None
        case Some(k) =>
          Some(s.(permits := if m == Release then s.permits - 1 else s.permits, conns := s.conns[c := k]))
  }

  /** The state after a schedule of actions, if each could happen when its turn came. */
  function Exec(cfg: Config, s: State, acts: seq<Action>): Option<State> {
    if acts == [] then Some(s)
    else
      match Exec(cfg, s, acts[..|acts| - 1])
      case None => None
      case Some(t) => Step(cfg, t, acts[|acts| - 1])
  }

  // ---- Counting ----

  function Live(conns: seq<Connection>): nat {
    if conns == [] then 0
    else Live(conns[..|conns| - 1]) + if conns[|conns| - 1].stage.Serving? then 1 else 0
  }

  function Open(conns: seq<Connection>): nat {
    if conns == [] then 0
    else Open(conns[..|conns| - 1]) + if conns[|conns| - 1].closes == 0 then 1 else 0
  }

  lemma {:induction false} LiveUpdate(conns: seq<Connection>, c: nat, k: Connection)
    requires c < |conns|
    ensures Live(conns[c := k]) - (if k.stage.Serving? then 1 else 0)
         == Live(conns) - (if conns[c].stage.Serving? then 1 else 0)
  {
    var n := |conns| - 1;
    if c < n {
      LiveUpdate(conns[..n], c, k);
      assert conns[c := k][..n] == conns[..n][c := k];
    } else {
      assert conns[c := k][..n] == conns[..n];
    }
  }

  // ---- The invariant ----

  predicate AcceptLoopHolds(k: Connection) {
    k.stage == Selecting || k.stage == Rejecting
  }

  /** What a connection's stage says about what was done to it. */
  predicate Consistent(k: Connection) {
    && (k.baseDecoded ==> k.requestRead)
    && (k.writeDeadlineSet ==> k.baseDecoded)
    && (k.writes > 0 ==> k.writeDeadlineSet)
    && k.writes <= 1
    && match k.stage
       case Selecting => k.closes == 0 && !k.requestRead
       case Rejecting => k.closes == 0 && !k.requestRead
       case Rejected => k.closes == 1 && !k.requestRead
       case Finished => k.closes == 1
       case Serving(Releasing) => k.closes == 1
       case Serving(phase) =>
         && k.closes == 0
         && match phase
            case SettingReadDeadline => !k.requestRead
            case Reading(_) => !k.requestRead
            case DecodingBase => k.requestRead && !k.baseDecoded
            case Dispatching => k.baseDecoded && !k.writeDeadlineSet
            case SettingWriteDeadline => k.baseDecoded && !k.writeDeadlineSet
            case Encoding => k.writeDeadlineSet && k.writes == 0
            case Writing(_) => k.writes == 1
            case Unwinding => true
            case Releasing => true
  }

  ghost predicate Inv(cfg: Config, s: State) {
    && s.permits == Live(s.conns) <= cfg.maxWorkers
    && (forall c :: 0 <= c < |s.conns| ==> Consistent(s.conns[c]))
    && (forall c :: 0 <= c < |s.conns| && AcceptLoopHolds(s.conns[c]) ==> c == |s.conns| - 1 && !s.listening)
    && (!s.listening ==> s.conns != [] && AcceptLoopHolds(s.conns[|s.conns| - 1]))
  }

  lemma AdvanceKeepsConsistent(cfg: Config, k: Connection, m: Move)
    requires k.stage.Serving? && Consistent(k) && Advance(cfg, k, m).Some?
    ensures var k' := Advance(cfg, k, m).value;
            && Consistent(k') && !AcceptLoopHolds(k')
            && (k'.stage.Serving? <==> m != Release)
  {
  }

  /** What the accept loop does to the connection it holds. */
  lemma AcceptLoopKeepsConsistent(k: Connection)
    requires Consistent(k)
    ensures k.stage == Selecting ==> Consistent(k.(stage := Serving(SettingReadDeadline)))
    ensures k.stage == Selecting ==> Consistent(k.(stage := Rejecting))
    ensures k.stage == Rejecting ==> Consistent(k.(stage := Rejected, closes := k.closes + 1))
  {
  }

  lemma NewConnectionConsistent()
    ensures Consistent(Connection(Selecting, 0, 0, false, false, false))
  {
  }

  lemma HandlerStepKeepsInv(cfg: Config, s: State, c: nat, m: Move)
    requires Inv(cfg, s) && Step(cfg, s, Worker(c, m)).Some?
    ensures Inv(cfg, Step(cfg, s, Worker(c, m)).value)
  {
    hide Advance, Consistent;
    AdvanceKeepsConsistent(cfg, s.conns[c], m);
    LiveUpdate(s.conns, c, Advance(cfg, s.conns[c], m).value);
  }

  lemma AcceptKeepsInv(cfg: Config, s: State)
    requires Inv(cfg, s) && s.listening
    ensures Inv(cfg, Step(cfg, s, Accept).value)
  {
    hide Consistent;
    NewConnectionConsistent();
    assert Step(cfg, s, Accept).value.conns[..|s.conns|] == s.conns;
  }

  /** The accept loop decides about the connection it holds, or closes it. */
  lemma DecisionKeepsInv(cfg: Config, s: State, a: Action)
    requires Inv(cfg, s) && Step(cfg, s, a).Some?
    requires a == TakePermit || a == FindFull || a == CloseRejected
    ensures Inv(cfg, Step(cfg, s, a).value)
  {
    hide Consistent;
    var last := |s.conns| - 1;
    AcceptLoopKeepsConsistent(s.conns[last]);
    LiveUpdate(s.conns, last, Step(cfg, s, a).value.conns[last]);
  }

  /** Every step of every interleaving keeps the invariant. */
  lemma StepKeepsInv(cfg: Config, s: State, a: Action)
    requires Inv(cfg, s) && Step(cfg, s, a).Some?
    ensures Inv(cfg, Step(cfg, s, a).value)
  {
    hide Inv, Advance;
    match a
    case AcceptError =>
    case Worker(c, m) => HandlerStepKeepsInv(cfg, s, c, m);
    case Accept => AcceptKeepsInv(cfg, s);
    case _ => DecisionKeepsInv(cfg, s, a);
  }

  /** The invariant holds of every state the server can reach. */
  lemma {:induction false} ReachableInv(cfg: Config, acts: seq<Action>)
    requires Exec(cfg, INITIAL, acts).Some?
    ensures Inv(cfg, Exec(cfg, INITIAL, acts).value)
  {
    if acts == [] {
    } else {
      var front := acts[..|acts| - 1];
      ReachableInv(cfg, front);
      StepKeepsInv(cfg, Exec(cfg, INITIAL, front).value, acts[|acts| - 1]);
    }
  }

  // ---- Safety, in terms of what was done when ----

  function Count(acts: seq<Action>, a: Action): nat {
    if acts == [] then 0
    else Count(acts[..|acts| - 1], a) + if acts[|acts| - 1] == a then 1 else 0
  }

  function Releases(acts: seq<Action>): nat {
    if acts == [] then 0
    else
      var last := acts[|acts| - 1];
      Releases(acts[..|acts| - 1]) + if last.Worker? && last.move == Release then 1 else 0
  }

  lemma {:induction false} CountedIsThere(acts: seq<Action>, a: Action)
    requires Count(acts, a) > 0
    ensures exists i :: 0 <= i < |acts| && acts[i] == a
  {
    if acts[|acts| - 1] == a {
    } else {
      CountedIsThere(acts[..|acts| - 1], a);
      var i :| 0 <= i < |acts| - 1 && acts[..|acts| - 1][i] == a;
      assert acts[i] == a;
    }
  }

  lemma {:induction false} PrefixRuns(cfg: Config, s: State, acts: seq<Action>, n: nat)
    requires n <= |acts| && Exec(cfg, s, acts).Some?
    ensures Exec(cfg, s, acts[..n]).Some?
    ensures n < |acts| ==> Step(cfg, Exec(cfg, s, acts[..n]).value, acts[n]).Some?
    decreases |acts|
  {
    if n < |acts| {
      var front := acts[..|acts| - 1];
      PrefixRuns(cfg, s, front, n);
      assert front[..n] == acts[..n];
    } else {
      assert acts[..n] == acts;
    }
  }

  /** What is recorded of connection `c` is what the schedule did to it. */
  ghost predicate Records(acts: seq<Action>, c: nat, k: Connection) {
    && k.writes == Count(acts, Worker(c, Encode(true)))
    && k.closes == Count(acts, Worker(c, Close)) + (if k.stage == Rejected then 1 else 0)
    && (k.requestRead <==> Count(acts, Worker(c, ReadEnd(true))) > 0)
    && (k.baseDecoded <==> Count(acts, Worker(c, DecodeBase(true))) > 0)
    && (k.writeDeadlineSet <==> Count(acts, Worker(c, SetWriteDeadline(true))) > 0)
  }

  ghost predicate Untouched(acts: seq<Action>, c: nat) {
    forall m :: Count(acts, Worker(c, m)) == 0
  }

  lemma CountExtend(front: seq<Action>, a: Action, b: Action)
    ensures Count(front + [a], b) == Count(front, b) + if a == b then 1 else 0
  {
    var acts := front + [a];
    assert acts[..|acts| - 1] == front;
  }

  lemma CountsExtend(front: seq<Action>, a: Action, c: nat)
    ensures forall m :: Count(front + [a], Worker(c, m)) ==
              Count(front, Worker(c, m)) + if a == Worker(c, m) then 1 else 0
  {
    forall m {
      CountExtend(front, a, Worker(c, m));
    }
  }

  lemma AdvanceRecords(cfg: Config, front: seq<Action>, c: nat, k: Connection, m: Move)
    requires k.stage.Serving? && Advance(cfg, k, m).Some? && Consistent(k) && Records(front, c, k)
    ensures Records(front + [Worker(c, m)], c, Advance(cfg, k, m).value)
  {
    hide Count, Consistent;
    CountsExtend(front, Worker(c, m), c);
  }

  /** An action on something else may at most close the connection by rejecting it. */
  lemma OthersRecord(front: seq<Action>, a: Action, c: nat, k: Connection, k': Connection)
    requires Records(front, c, k) && !(a.Worker? && a.conn == c)
    requires k == k' || (k.stage != Rejected
               && k' == k.(stage := k'.stage, closes := k.closes + if k'.stage == Rejected then 1 else 0))
    ensures Records(front + [a], c, k')
  {
    hide Count;
    CountsExtend(front, a, c);
  }

  lemma NewRecords(front: seq<Action>, c: nat)
    requires Untouched(front, c)
    ensures Records(front, c, Connection(Selecting, 0, 0, false, false, false))
  {
    hide Count;
  }

  lemma StepRecords(cfg: Config, s: State, a: Action, front: seq<Action>, c: nat)
    requires Inv(cfg, s) && Step(cfg, s, a).Some? && c < |Step(cfg, s, a).value.conns|
    requires if c < |s.conns| then Records(front, c, s.conns[c]) else Untouched(front, c)
    ensures Records(front + [a], c, Step(cfg, s, a).value.conns[c])
  {
    hide Advance, Consistent, Records, Count;
    var k' := Step(cfg, s, a).value.conns[c];
    if c == |s.conns| {
      NewRecords(front, c);
      OthersRecord(front, a, c, k', k');
    } else if a.Worker? && a.conn == c {
      AdvanceRecords(cfg, front, c, s.conns[c], a.move);
    } else {
      OthersRecord(front, a, c, s.conns[c], k');
    }
  }

  /** The state agrees with the schedule that led to it. */
  ghost predicate Recorded(acts: seq<Action>, s: State) {
    && s.permits == Count(acts, TakePermit) - Releases(acts)
    && (forall c :: 0 <= c < |s.conns| ==> Records(acts, c, s.conns[c]))
    && (forall c: nat :: c >= |s.conns| ==> Untouched(acts, c))
  }

  lemma StepRecordsPermits(cfg: Config, s: State, a: Action, front: seq<Action>)
    requires Step(cfg, s, a).Some? && s.permits == Count(front, TakePermit) - Releases(front)
    ensures Step(cfg, s, a).value.permits == Count(front + [a], TakePermit) - Releases(front + [a])
  {
    hide Advance, Count;
    CountExtend(front, a, TakePermit);
    var acts := front + [a];
    assert acts[..|acts| - 1] == front;
  }

  lemma StepKeepsRecorded(cfg: Config, s: State, a: Action, front: seq<Action>)
    requires Inv(cfg, s) && Step(cfg, s, a).Some? && Recorded(front, s)
    ensures Recorded(front + [a], Step(cfg, s, a).value)
  {
    hide Inv, Advance, Records, Count, Releases;
    var t := Step(cfg, s, a).value;
    StepRecordsPermits(cfg, s, a, front);
    forall c | 0 <= c < |t.conns|
      ensures Records(front + [a], c, t.conns[c])
    {
      StepRecords(cfg, s, a, front, c);
    }
    forall c: nat | c >= |t.conns|
      ensures Untouched(front + [a], c)
    {
      assert Untouched(front, c);
      CountsExtend(front, a, c);
    }
  }

  lemma {:induction false} HistoryIsRecorded(cfg: Config, acts: seq<Action>)
    requires Exec(cfg, INITIAL, acts).Some?
    ensures Recorded(acts, Exec(cfg, INITIAL, acts).value)
  {
    if acts == [] {
    } else {
      hide Step, Recorded, Inv;
      var front, a := acts[..|acts| - 1], acts[|acts| - 1];
      HistoryIsRecorded(cfg, front);
      ReachableInv(cfg, front);
      StepKeepsRecorded(cfg, Exec(cfg, INITIAL, front).value, a, front);
      assert acts == front + [a];
    }
  }

  /** What must have been done to a connection before its permit can be returned or its response written. */
  lemma NeededBefore(cfg: Config, s: State, c: nat)
    requires Inv(cfg, s)
    ensures Step(cfg, s, Worker(c, Release)).Some? ==>
              c < |s.conns| && s.conns[c].closes == 1 && s.conns[c].stage != Rejected
    ensures Step(cfg, s, Worker(c, Encode(true))).Some? ==>
              c < |s.conns| && s.conns[c].requestRead && s.conns[c].baseDecoded && s.conns[c].writeDeadlineSet
  {
  }

  // ---- The safety theorems ----

  /**
    Permits in use are always those taken and not yet returned, there is one per
    live handler, and never more than `maxWorkers`.
   */
  lemma PermitsBoundWorkers(cfg: Config, acts: seq<Action>)
    requires Exec(cfg, INITIAL, acts).Some?
    ensures var s := Exec(cfg, INITIAL, acts).value;
            Count(acts, TakePermit) - Releases(acts) == s.permits == Live(s.conns) <= cfg.maxWorkers
  {
    ReachableInv(cfg, acts);
    HistoryIsRecorded(cfg, acts);
  }

  /** A connection is turned away only while every permit is held by a live handler. */
  lemma RejectedOnlyWhenFull(cfg: Config, acts: seq<Action>, j: nat)
    requires Exec(cfg, INITIAL, acts).Some? && j < |acts| && acts[j] == FindFull
    ensures Count(acts[..j], TakePermit) - Releases(acts[..j]) == cfg.maxWorkers
    ensures Exec(cfg, INITIAL, acts[..j]).Some? && Live(Exec(cfg, INITIAL, acts[..j]).value.conns) == cfg.maxWorkers
  {
    PrefixRuns(cfg, INITIAL, acts, j);
    PermitsBoundWorkers(cfg, acts[..j]);
  }

  /** The accept loop never waits: an accepted connection is at once either admitted or turned away. */
  lemma AcceptLoopNeverWaits(cfg: Config, acts: seq<Action>)
    requires Exec(cfg, INITIAL, acts).Some?
    ensures var s := Exec(cfg, INITIAL, acts).value;
            && (s.listening <==> Step(cfg, s, Accept).Some?)
            && (!s.listening <==>
                  (Step(cfg, s, TakePermit).Some? || Step(cfg, s, FindFull).Some? || Step(cfg, s, CloseRejected).Some?))
            && !(Step(cfg, s, TakePermit).Some? && Step(cfg, s, FindFull).Some?)
            && Step(cfg, s, AcceptError) == (if s.listening then Some(s) else None)
  {
    ReachableInv(cfg, acts);
  }

  /** A handler returns its permit only after closing its connection, and closes it only once. */
  lemma ClosedOnceBeforeRelease(cfg: Config, acts: seq<Action>, j: nat, c: nat)
    requires Exec(cfg, INITIAL, acts).Some? && j < |acts| && acts[j] == Worker(c, Release)
    ensures exists i :: 0 <= i < j && acts[i] == Worker(c, Close)
    ensures Count(acts, Worker(c, Close)) == 1
  {
    hide Step, Exec, Consistent, Inv, Count;
    PrefixRuns(cfg, INITIAL, acts, j);
    var front := acts[..j];
    ReachableInv(cfg, front);
    HistoryIsRecorded(cfg, front);
    NeededBefore(cfg, Exec(cfg, INITIAL, front).value, c);
    Happened(acts, j, Worker(c, Close));
    CountGrows(acts, j, Worker(c, Close));
    AtMostOnce(cfg, acts, c);
  }

  lemma {:induction false} CountGrows(acts: seq<Action>, n: nat, a: Action)
    requires n <= |acts|
    ensures Count(acts[..n], a) <= Count(acts, a)
  {
    if n < |acts| {
      var front := acts[..|acts| - 1];
      CountGrows(front, n, a);
      assert front[..n] == acts[..n];
    } else {
      assert acts[..n] == acts;
    }
  }

  /** On every path a connection is closed at most once and at most one response is written to it. */
  lemma AtMostOnce(cfg: Config, acts: seq<Action>, c: nat)
    requires Exec(cfg, INITIAL, acts).Some?
    ensures Count(acts, Worker(c, Close)) <= 1
    ensures Count(acts, Worker(c, Encode(true))) <= 1
  {
    ReachableInv(cfg, acts);
    HistoryIsRecorded(cfg, acts);
    var s := Exec(cfg, INITIAL, acts).value;
    if c < |s.conns| {
      assert Consistent(s.conns[c]) && Records(acts, c, s.conns[c]);
    } else {
      assert Untouched(acts, c);
    }
  }

  /**
    A response is written only after the request was read to its end, its base
    decoded and the write deadline set.
   */
  lemma WrittenOnlyAfterDeadlines(cfg: Config, acts: seq<Action>, j: nat, c: nat)
    requires Exec(cfg, INITIAL, acts).Some? && j < |acts| && acts[j] == Worker(c, Encode(true))
    ensures exists i :: 0 <= i < j && acts[i] == Worker(c, ReadEnd(true))
    ensures exists i :: 0 <= i < j && acts[i] == Worker(c, DecodeBase(true))
    ensures exists i :: 0 <= i < j && acts[i] == Worker(c, SetWriteDeadline(true))
  {
    hide Step, Exec, Consistent, Inv, Count;
    PrefixRuns(cfg, INITIAL, acts, j);
    var front := acts[..j];
    ReachableInv(cfg, front);
    HistoryIsRecorded(cfg, front);
    NeededBefore(cfg, Exec(cfg, INITIAL, front).value, c);
    Happened(acts, j, Worker(c, ReadEnd(true)));
    Happened(acts, j, Worker(c, DecodeBase(true)));
    Happened(acts, j, Worker(c, SetWriteDeadline(true)));
  }

  lemma Happened(acts: seq<Action>, j: nat, a: Action)
    requires j <= |acts| && Count(acts[..j], a) > 0
    ensures exists i :: 0 <= i < j && acts[i] == a
  {
    CountedIsThere(acts[..j], a);
    var i :| 0 <= i < j && acts[..j][i] == a;
    assert acts[i] == a;
  }

  lemma {:induction false} OpenAreLive(conns: seq<Connection>)
    requires forall c :: 0 <= c < |conns| ==> Consistent(conns[c]) && !AcceptLoopHolds(conns[c])
    ensures Open(conns) <= Live(conns)
  {
    if conns == [] {
    } else {
      var n := |conns| - 1;
      assert Consistent(conns[n]);
      OpenAreLive(conns[..n]);
    }
  }

  /** At most one open connection more than there are permits: the one the accept loop holds. */
  lemma OpenConnectionsBounded(cfg: Config, acts: seq<Action>)
    requires Exec(cfg, INITIAL, acts).Some?
    ensures Open(Exec(cfg, INITIAL, acts).value.conns) <= cfg.maxWorkers + 1
  {
    ReachableInv(cfg, acts);
    var conns := Exec(cfg, INITIAL, acts).value.conns;
    if conns != [] {
      var n := |conns| - 1;
      assert forall c :: 0 <= c < n ==> Consistent(conns[c]) && !AcceptLoopHolds(conns[c]);
      assert Consistent(conns[n]);
      OpenAreLive(conns[..n]);
    }
  }

  // ---- What becomes of a request ----

  /** A call of the handler that fails, or panics. */
  predicate Fails(m: Move) {
    || m == SetReadDeadline(false) || m == ReadEnd(false) || m == DecodeBase(false)
    || m == SetWriteDeadline(false) || m == Encode(false) || m == WriteEnd(false) || m == Panic
  }

  /** The handler's body is over: what remains are its deferred calls, if anything. */
  predicate BodyOver(stage: Stage) {
    stage == Serving(Unwinding) || stage == Serving(Releasing) || stage == Finished
  }

  ghost predicate FailedIn(acts: seq<Action>, c: nat) {
    exists i, m :: 0 <= i < |acts| && acts[i] == Worker(c, m) && Fails(m)
  }

  lemma AdvanceEndsBody(cfg: Config, k: Connection, m: Move)
    requires k.stage.Serving? && Consistent(k) && Advance(cfg, k, m).Some?
    ensures var k' := Advance(cfg, k, m).value;
            && (Fails(m) ==> k'.stage == Serving(Unwinding))
            && (BodyOver(k.stage) ==> BodyOver(k'.stage) && k'.writes == k.writes && (m == Close || m == Release))
            && (!BodyOver(k.stage) && BodyOver(k'.stage) ==> Fails(m) || k'.writes == 1)
  {
  }

  /** How far connection `c` got, in view of the schedule: failures end the body, and only they do before a response. */
  ghost predicate EndsAccounted(acts: seq<Action>, s: State, c: nat) {
    && (FailedIn(acts, c) ==> c < |s.conns| && BodyOver(s.conns[c].stage))
    && (c < |s.conns| && BodyOver(s.conns[c].stage) ==> s.conns[c].writes == 1 || FailedIn(acts, c))
  }

  lemma FailedExtend(front: seq<Action>, a: Action, c: nat)
    ensures FailedIn(front + [a], c) <==> FailedIn(front, c) || (a.Worker? && a.conn == c && Fails(a.move))
  {
    var acts := front + [a];
    if i, m :| 0 <= i < |front| && front[i] == Worker(c, m) && Fails(m) {
      assert acts[i] == Worker(c, m);
    }
    if a.Worker? && a.conn == c && Fails(a.move) {
      assert acts[|front|] == Worker(c, a.move);
    }
  }

  lemma StepKeepsAccount(cfg: Config, s: State, a: Action, front: seq<Action>, c: nat)
    requires Inv(cfg, s) && Step(cfg, s, a).Some? && EndsAccounted(front, s, c)
    ensures EndsAccounted(front + [a], Step(cfg, s, a).value, c)
  {
    hide Advance, Consistent, FailedIn, Live;
    FailedExtend(front, a, c);
    if a.Worker? && a.conn == c {
      AdvanceEndsBody(cfg, s.conns[c], a.move);
    }
  }

  lemma {:induction false} EndsAreAccounted(cfg: Config, acts: seq<Action>, c: nat)
    requires Exec(cfg, INITIAL, acts).Some?
    ensures EndsAccounted(acts, Exec(cfg, INITIAL, acts).value, c)
  {
    if acts == [] {
    } else {
      hide Step, EndsAccounted, Inv;
      var front, a := acts[..|acts| - 1], acts[|acts| - 1];
      EndsAreAccounted(cfg, front, c);
      ReachableInv(cfg, front);
      StepKeepsAccount(cfg, Exec(cfg, INITIAL, front).value, a, front, c);
      assert acts == front + [a];
    }
  }

  /**
    Only failures go unanswered: under every schedule, a handler whose body is
    over has written a response, or one of its calls failed or panicked.
   */
  lemma UnansweredOnlyOnFailure(cfg: Config, acts: seq<Action>, c: nat)
    requires Exec(cfg, INITIAL, acts).Some? && c < |Exec(cfg, INITIAL, acts).value.conns|
    requires BodyOver(Exec(cfg, INITIAL, acts).value.conns[c].stage)
    ensures Count(acts, Worker(c, Encode(true))) == 1
         || exists i, m :: 0 <= i < |acts| && acts[i] == Worker(c, m) && Fails(m)
  {
    hide Exec, Count;
    EndsAreAccounted(cfg, acts, c);
    HistoryIsRecorded(cfg, acts);
    assert Records(acts, c, Exec(cfg, INITIAL, acts).value.conns[c]);
  }

  /** After a failure or a panic a handler does nothing but close its connection and return its permit. */
  lemma OnlyDeferredAfterFailure(cfg: Config, acts: seq<Action>, i: nat, j: nat, c: nat, failed: Move, m: Move)
    requires Exec(cfg, INITIAL, acts).Some? && i < j < |acts|
    requires acts[i] == Worker(c, failed) && Fails(failed) && acts[j] == Worker(c, m)
    ensures m == Close || m == Release
  {
    hide Exec, Consistent, Live;
    var front := acts[..j];
    PrefixRuns(cfg, INITIAL, acts, j);
    ReachableInv(cfg, front);
    assert front[i] == Worker(c, failed);
    assert FailedIn(front, c);
    EndsAreAccounted(cfg, front, c);
    AdvanceEndsBody(cfg, Exec(cfg, INITIAL, front).value.conns[c], m);
  }

  /** The handler's moves one after the other, from connection `k`. */
  function RunMoves(cfg: Config, k: Connection, moves: seq<Move>): Option<Connection>
    decreases |moves|
  {
    if moves == [] then Some(k)
    else if !k.stage.Serving? then None
    else
      match Advance(cfg, k, moves[0])
      case Some(k') => RunMoves(cfg, k', moves[1..])
      case None => None
  }

  function Of(c: nat, moves: seq<Move>): (acts: seq<Action>)
    ensures |acts| == |moves|
  {
    seq(|moves|, i requires 0 <= i < |moves| => Worker(c, moves[i]))
  }

  lemma {:induction false} RunIsExec(cfg: Config, s: State, c: nat, moves: seq<Move>)
    requires c < |s.conns| && RunMoves(cfg, s.conns[c], moves).Some? && Release !in moves
    ensures Exec(cfg, s, Of(c, moves)) == Some(s.(conns := s.conns[c := RunMoves(cfg, s.conns[c], moves).value]))
    decreases |moves|
  {
    hide Advance;
    if moves == [] {
      assert s.conns[c := s.conns[c]] == s.conns;
    } else {
      var k := Advance(cfg, s.conns[c], moves[0]).value;
      var t := s.(conns := s.conns[c := k]);
      var first := [Worker(c, moves[0])];
      RunIsExec(cfg, t, c, moves[1..]);
      assert first[..0] == [] && Exec(cfg, s, first) == Some(t);
      ExecConcat(cfg, s, first, Of(c, moves[1..]));
      assert Of(c, moves) == first + Of(c, moves[1..]);
      var k' := RunMoves(cfg, k, moves[1..]).value;
      assert s.conns[c := k][c := k'] == s.conns[c := k'];
    }
  }

  /** A handler that runs `moves` to its deferred return of the permit. */
  lemma RunToRelease(cfg: Config, s: State, c: nat, moves: seq<Move>)
    requires c < |s.conns| && s.permits > 0 && Release !in moves
    requires RunMoves(cfg, s.conns[c], moves).Some? && RunMoves(cfg, s.conns[c], moves).value.stage == Serving(Releasing)
    ensures var k := RunMoves(cfg, s.conns[c], moves).value;
            Exec(cfg, s, Of(c, moves) + [Worker(c, Release)])
              == Some(s.(permits := s.permits - 1, conns := s.conns[c := k.(stage := Finished)]))
  {
    hide RunMoves;
    var k := RunMoves(cfg, s.conns[c], moves).value;
    var acts := Of(c, moves) + [Worker(c, Release)];
    RunIsExec(cfg, s, c, moves);
    assert acts[..|acts| - 1] == Of(c, moves);
    assert s.conns[c := k][c := k.(stage := Finished)] == s.conns[c := k.(stage := Finished)];
  }

  function Repeat(m: Move, n: nat): (moves: seq<Move>)
    ensures |moves| == n
  {
    seq(n, _ => m)
  }

  lemma RunStep(cfg: Config, k: Connection, m: Move, rest: seq<Move>)
    requires k.stage.Serving? && Advance(cfg, k, m).Some?
    ensures RunMoves(cfg, k, [m] + rest) == RunMoves(cfg, Advance(cfg, k, m).value, rest)
  {
    assert ([m] + rest)[1..] == rest;
  }

  /** The chunk of a read or of a write in progress, and the phase with this much budget left. */
  function ChunkOf(writing: bool): Move {
    if writing then WriteChunk else ReadChunk
  }

  function Left(writing: bool, budget: nat): Stage {
    Serving(if writing then Writing(budget) else Reading(budget))
  }

  lemma {:induction false} RunChunks(cfg: Config, k: Connection, writing: bool, budget: nat, n: nat, rest: seq<Move>)
    requires n <= budget && k.stage == Left(writing, budget)
    ensures RunMoves(cfg, k, Repeat(ChunkOf(writing), n) + rest)
         == RunMoves(cfg, k.(stage := Left(writing, budget - n)), rest)
    decreases n
  {
    var m := ChunkOf(writing);
    if n == 0 {
      assert Repeat(m, 0) + rest == rest;
    } else {
      hide RunMoves;
      assert Repeat(m, n) + rest == [m] + (Repeat(m, n - 1) + rest);
      RunStep(cfg, k, m, Repeat(m, n - 1) + rest);
      RunChunks(cfg, k.(stage := Left(writing, budget - 1)), writing, budget - 1, n - 1, rest);
    }
  }

  /** What a handler does with a request that nothing goes wrong with, up to closing its connection. */
  function WritePart(chunks: nat): seq<Move> {
    Repeat(WriteChunk, chunks) + [WriteEnd(true), Close]
  }

  function AnswerPart(chunks: nat): seq<Move> {
    [ReadEnd(true), DecodeBase(true), Dispatch, SetWriteDeadline(true), Encode(true)] + WritePart(chunks)
  }

  function Service(readChunks: nat, writeChunks: nat): seq<Move> {
    [SetReadDeadline(true)] + (Repeat(ReadChunk, readChunks) + AnswerPart(writeChunks))
  }

  lemma WritePartRuns(cfg: Config, k: Connection, budget: nat, chunks: nat)
    requires k.stage == Serving(Writing(budget)) && chunks < budget
    ensures RunMoves(cfg, k, WritePart(chunks)) == Some(k.(stage := Serving(Releasing), closes := k.closes + 1))
  {
    RunChunks(cfg, k, true, budget, chunks, [WriteEnd(true), Close]);
    var k1 := k.(stage := Serving(Writing(budget - chunks)));
    var k2 := k.(stage := Serving(Unwinding));
    assert [WriteEnd(true), Close] == [WriteEnd(true)] + ([Close] + []);
    RunStep(cfg, k1, WriteEnd(true), [Close] + []);
    RunStep(cfg, k2, Close, []);
  }

  lemma AnswerPartRuns(cfg: Config, k: Connection, budget: nat, chunks: nat)
    requires k.stage == Serving(Reading(budget)) && budget > 0 && chunks < cfg.writeBudget
    ensures RunMoves(cfg, k, AnswerPart(chunks)) ==
            Some(Connection(Serving(Releasing), k.closes + 1, k.writes + 1, true, true, true))
  {
    hide RunMoves, WritePart;
    var rest := WritePart(chunks);
    var k1 := k.(stage := Serving(DecodingBase), requestRead := true);
    var k2 := k1.(stage := Serving(Dispatching), baseDecoded := true);
    var k3 := k2.(stage := Serving(SettingWriteDeadline));
    var k4 := k3.(stage := Serving(Encoding), writeDeadlineSet := true);
    var k5 := k4.(stage := Serving(Writing(cfg.writeBudget)), writes := k.writes + 1);
    assert AnswerPart(chunks) == [ReadEnd(true)] + ([DecodeBase(true)] + ([Dispatch]
                                 + ([SetWriteDeadline(true)] + ([Encode(true)] + rest))));
    RunStep(cfg, k, ReadEnd(true), [DecodeBase(true)] + ([Dispatch] + ([SetWriteDeadline(true)] + ([Encode(true)] + rest))));
    RunStep(cfg, k1, DecodeBase(true), [Dispatch] + ([SetWriteDeadline(true)] + ([Encode(true)] + rest)));
    RunStep(cfg, k2, Dispatch, [SetWriteDeadline(true)] + ([Encode(true)] + rest));
    RunStep(cfg, k3, SetWriteDeadline(true), [Encode(true)] + rest);
    RunStep(cfg, k4, Encode(true), rest);
    WritePartRuns(cfg, k5, cfg.writeBudget, chunks);
  }

  /**
    A request that nothing goes wrong with is answered: from wherever the
    handler starts, in any number of chunks that the deadlines leave time for,
    it reads the request, writes one response, closes the connection and
    returns the permit; no other connection is touched.
   */
  lemma RequestIsAnswered(cfg: Config, s: State, c: nat, readChunks: nat, writeChunks: nat)
    requires c < |s.conns| && s.conns[c].stage == Serving(SettingReadDeadline) && s.permits > 0
    requires readChunks < cfg.readBudget && writeChunks < cfg.writeBudget
    ensures var k := s.conns[c];
            Exec(cfg, s, Of(c, Service(readChunks, writeChunks)) + [Worker(c, Release)]) ==
            Some(s.(permits := s.permits - 1,
                    conns := s.conns[c := Connection(Finished, k.closes + 1, k.writes + 1, true, true, true)]))
  {
    hide RunMoves, AnswerPart, Exec;
    var k := s.conns[c];
    var k1 := k.(stage := Serving(Reading(cfg.readBudget)));
    var k2 := k.(stage := Serving(Reading(cfg.readBudget - readChunks)));
    RunStep(cfg, k, SetReadDeadline(true), Repeat(ReadChunk, readChunks) + AnswerPart(writeChunks));
    RunChunks(cfg, k1, false, cfg.readBudget, readChunks, AnswerPart(writeChunks));
    AnswerPartRuns(cfg, k2, cfg.readBudget - readChunks, writeChunks);
    ServiceHasNoRelease(readChunks, writeChunks);
    RunToRelease(cfg, s, c, Service(readChunks, writeChunks));
  }

  lemma ServiceHasNoRelease(readChunks: nat, writeChunks: nat)
    ensures Release !in Service(readChunks, writeChunks)
  {
  }

  /** The failure of the call a handler is in. */
  function FailingMove(phase: Phase): Move {
    match phase
    case SettingReadDeadline => SetReadDeadline(false)
    case Reading(_) => ReadEnd(false)
    case DecodingBase => DecodeBase(false)
    case SettingWriteDeadline => SetWriteDeadline(false)
    case Encoding => Encode(false)
    case Writing(_) => WriteEnd(false)
    case _ => Panic
  }

  /**
    In every phase of its body a handler may panic, and each call that returns
    an error may fail; then it closes its connection and returns its permit,
    and nothing else changes.
   */
  lemma FailureIsCleanedUp(cfg: Config, s: State, c: nat, m: Move)
    requires c < |s.conns| && s.conns[c].stage.Serving? && s.permits > 0
    requires s.conns[c].stage != Serving(Unwinding) && s.conns[c].stage != Serving(Releasing)
    requires m == Panic || m == FailingMove(s.conns[c].stage.phase)
    ensures Exec(cfg, s, Of(c, [m, Close]) + [Worker(c, Release)]) ==
            Some(s.(permits := s.permits - 1,
                    conns := s.conns[c := s.conns[c].(stage := Finished, closes := s.conns[c].closes + 1)]))
  {
    hide RunMoves, Exec;
    var k := s.conns[c];
    var k1 := k.(stage := Serving(Unwinding));
    assert [m, Close] == [m] + ([Close] + []);
    RunStep(cfg, k, m, [Close] + []);
    RunStep(cfg, k1, Close, []);
    RunNothing(cfg, k1.(stage := Serving(Releasing), closes := k.closes + 1));
    RunToRelease(cfg, s, c, [m, Close]);
  }

  lemma RunNothing(cfg: Config, k: Connection)
    ensures RunMoves(cfg, k, []) == Some(k)
  {
  }

  // ---- Deadlines ----

  /** The chunks a connection may have read and written by its stage. */
  predicate ChunksAt(cfg: Config, stage: Stage, readChunks: nat, writeChunks: nat) {
    && readChunks <= cfg.readBudget && writeChunks <= cfg.writeBudget
    && match stage
       case Selecting => readChunks == writeChunks == 0
       case Rejecting => readChunks == writeChunks == 0
       case Serving(SettingReadDeadline) => readChunks == writeChunks == 0
       case Serving(Reading(budget)) => readChunks + budget == cfg.readBudget && writeChunks == 0
       case Serving(Writing(budget)) => writeChunks + budget == cfg.writeBudget
       case Serving(Unwinding) => true
       case Serving(Releasing) => true
       case Serving(_) => writeChunks == 0
       case _ => true
  }

  lemma AdvanceKeepsChunks(cfg: Config, k: Connection, m: Move, readChunks: nat, writeChunks: nat)
    requires k.stage.Serving? && Advance(cfg, k, m).Some? && ChunksAt(cfg, k.stage, readChunks, writeChunks)
    ensures ChunksAt(cfg, Advance(cfg, k, m).value.stage,
                     readChunks + if m == ReadChunk then 1 else 0, writeChunks + if m == WriteChunk then 1 else 0)
  {
  }

  /** The chunks read and written so far are those the deadlines had time for. */
  ghost predicate WithinDeadlines(cfg: Config, acts: seq<Action>, s: State, c: nat) {
    var readChunks, writeChunks := Count(acts, Worker(c, ReadChunk)), Count(acts, Worker(c, WriteChunk));
    if c < |s.conns| then ChunksAt(cfg, s.conns[c].stage, readChunks, writeChunks)
    else readChunks == writeChunks == 0
  }

  lemma StepKeepsDeadlines(cfg: Config, s: State, a: Action, front: seq<Action>, c: nat)
    requires Step(cfg, s, a).Some? && WithinDeadlines(cfg, front, s, c)
    ensures WithinDeadlines(cfg, front + [a], Step(cfg, s, a).value, c)
  {
    hide Count, Advance;
    CountExtend(front, a, Worker(c, ReadChunk));
    CountExtend(front, a, Worker(c, WriteChunk));
    if a.Worker? && a.conn == c {
      AdvanceKeepsChunks(cfg, s.conns[c], a.move, Count(front, Worker(c, ReadChunk)), Count(front, Worker(c, WriteChunk)));
    }
  }

  lemma {:induction false} DeadlinesAreKept(cfg: Config, acts: seq<Action>, c: nat)
    requires Exec(cfg, INITIAL, acts).Some?
    ensures WithinDeadlines(cfg, acts, Exec(cfg, INITIAL, acts).value, c)
  {
    if acts == [] {
    } else {
      hide Step, WithinDeadlines;
      var front, a := acts[..|acts| - 1], acts[|acts| - 1];
      DeadlinesAreKept(cfg, front, c);
      StepKeepsDeadlines(cfg, Exec(cfg, INITIAL, front).value, a, front, c);
      assert acts == front + [a];
    }
  }

  /** A read or a write that ends well ends before its deadline: chunks were left in its budget. */
  lemma EndsWellBeforeDeadline(cfg: Config, acts: seq<Action>, j: nat, c: nat)
    requires Exec(cfg, INITIAL, acts).Some? && j < |acts|
    ensures acts[j] == Worker(c, ReadEnd(true)) ==> Count(acts[..j], Worker(c, ReadChunk)) < cfg.readBudget
    ensures acts[j] == Worker(c, WriteEnd(true)) ==> Count(acts[..j], Worker(c, WriteChunk)) < cfg.writeBudget
  {
    hide Exec, Count;
    PrefixRuns(cfg, INITIAL, acts, j);
    DeadlinesAreKept(cfg, acts[..j], c);
  }

  // ---- Draining ----

  /** An upper bound on the moves a handler still makes. */
  function Remaining(cfg: Config, stage: Stage): nat {
    match stage
    case Serving(phase) =>
      (match phase
       case SettingReadDeadline => 9 + cfg.writeBudget + cfg.readBudget
       case Reading(budget) => 8 + cfg.writeBudget + budget
       case DecodingBase => 7 + cfg.writeBudget
       case Dispatching => 6 + cfg.writeBudget
       case SettingWriteDeadline => 5 + cfg.writeBudget
       case Encoding => 4 + cfg.writeBudget
       case Writing(budget) => 3 + budget
       case Unwinding => 2
       case Releasing => 1)
    case _ => 0
  }

  function TotalRemaining(cfg: Config, conns: seq<Connection>): nat {
    if conns == [] then 0
    else TotalRemaining(cfg, conns[..|conns| - 1]) + Remaining(cfg, conns[|conns| - 1].stage)
  }

  lemma {:induction false} TotalRemainingUpdate(cfg: Config, conns: seq<Connection>, c: nat, k: Connection)
    requires c < |conns|
    ensures TotalRemaining(cfg, conns[c := k]) - Remaining(cfg, k.stage)
         == TotalRemaining(cfg, conns) - Remaining(cfg, conns[c].stage)
  {
    var n := |conns| - 1;
    if c < n {
      TotalRemainingUpdate(cfg, conns[..n], c, k);
      assert conns[c := k][..n] == conns[..n][c := k];
    } else {
      assert conns[c := k][..n] == conns[..n];
    }
  }

  lemma AdvanceDecreases(cfg: Config, k: Connection, m: Move)
    requires k.stage.Serving? && Advance(cfg, k, m).Some?
    ensures Remaining(cfg, Advance(cfg, k, m).value.stage) < Remaining(cfg, k.stage)
  {
  }

  /** Every handler move brings the handlers strictly closer to being done. */
  lemma WorkerStepDecreases(cfg: Config, s: State, a: Action)
    requires a.Worker? && Step(cfg, s, a).Some?
    ensures TotalRemaining(cfg, Step(cfg, s, a).value.conns) < TotalRemaining(cfg, s.conns)
  {
    hide Remaining, Advance;
    AdvanceDecreases(cfg, s.conns[a.conn], a.move);
    TotalRemainingUpdate(cfg, s.conns, a.conn, Step(cfg, s, a).value.conns[a.conn]);
  }

  /** Without new accepts, the handlers make boundedly many moves, in whatever order. */
  lemma {:induction false} DrainIsBounded(cfg: Config, s: State, acts: seq<Action>)
    requires forall i :: 0 <= i < |acts| ==> acts[i].Worker?
    requires Exec(cfg, s, acts).Some?
    ensures |acts| + TotalRemaining(cfg, Exec(cfg, s, acts).value.conns) <= TotalRemaining(cfg, s.conns)
  {
    if acts == [] {
    } else {
      var n := |acts| - 1;
      DrainIsBounded(cfg, s, acts[..n]);
      WorkerStepDecreases(cfg, Exec(cfg, s, acts[..n]).value, acts[n]);
    }
  }

  /** How many moves the handler of connection `c` made. */
  function MovesOf(acts: seq<Action>, c: nat): nat {
    if acts == [] then 0
    else
      var last := acts[|acts| - 1];
      MovesOf(acts[..|acts| - 1], c) + if last.Worker? && last.conn == c then 1 else 0
  }

  function HandlerBound(cfg: Config): nat {
    9 + cfg.readBudget + cfg.writeBudget
  }

  /** What the handler of connection `c` did and may still do stays within its bound. */
  ghost predicate WithinBound(cfg: Config, s: State, acts: seq<Action>, c: nat) {
    if c < |s.conns| && !AcceptLoopHolds(s.conns[c]) then
      MovesOf(acts, c) + Remaining(cfg, s.conns[c].stage) <= HandlerBound(cfg)
    else MovesOf(acts, c) == 0
  }

  lemma StepStaysWithinBound(cfg: Config, s: State, a: Action, front: seq<Action>, c: nat)
    requires WithinBound(cfg, s, front, c) && Step(cfg, s, a).Some?
    ensures WithinBound(cfg, Step(cfg, s, a).value, front + [a], c)
  {
    hide Advance;
    var acts := front + [a];
    assert acts[..|acts| - 1] == front;
    if a.Worker? {
      AdvanceDecreases(cfg, s.conns[a.conn], a.move);
      AdvanceStaysWithHandler(cfg, s.conns[a.conn], a.move);
    }
  }

  lemma AdvanceStaysWithHandler(cfg: Config, k: Connection, m: Move)
    requires k.stage.Serving? && Advance(cfg, k, m).Some?
    ensures !AcceptLoopHolds(Advance(cfg, k, m).value)
  {
  }

  /** Under every schedule, however many connections keep arriving, each handler makes boundedly many moves. */
  lemma {:induction false} HandlerIsBounded(cfg: Config, acts: seq<Action>, c: nat)
    requires Exec(cfg, INITIAL, acts).Some?
    ensures WithinBound(cfg, Exec(cfg, INITIAL, acts).value, acts, c)
    ensures MovesOf(acts, c) <= HandlerBound(cfg)
  {
    if acts == [] {
    } else {
      var front, a := acts[..|acts| - 1], acts[|acts| - 1];
      HandlerIsBounded(cfg, front, c);
      StepStaysWithinBound(cfg, Exec(cfg, INITIAL, front).value, a, front, c);
      assert acts == front + [a];
    }
  }

  /** The move a handler can always make: where a deadline may have passed, to fail. */
  function NextMove(phase: Phase): Move {
    match phase
    case SettingReadDeadline => SetReadDeadline(true)
    case Reading(_) => ReadEnd(false)
    case DecodingBase => DecodeBase(true)
    case Dispatching => Dispatch
    case SettingWriteDeadline => SetWriteDeadline(true)
    case Encoding => Encode(true)
    case Writing(_) => WriteEnd(false)
    case Unwinding => Close
    case Releasing => Release
  }

  lemma {:induction false} LiveHasPermit(conns: seq<Connection>, c: nat)
    requires c < |conns| && conns[c].stage.Serving?
    ensures Live(conns) > 0
  {
    if c == |conns| - 1 {
    } else {
      LiveHasPermit(conns[..|conns| - 1], c);
    }
  }

  /** No live handler is ever stuck; in particular returning a permit never blocks. */
  lemma LiveHandlerCanMove(cfg: Config, s: State, c: nat)
    requires Inv(cfg, s) && c < |s.conns| && s.conns[c].stage.Serving?
    ensures Step(cfg, s, Worker(c, NextMove(s.conns[c].stage.phase))).Some?
  {
    LiveHasPermit(s.conns, c);
  }

  lemma {:induction false} SomeoneIsLive(conns: seq<Connection>) returns (c: nat)
    requires Live(conns) > 0
    ensures c < |conns| && conns[c].stage.Serving?
  {
    if conns[|conns| - 1].stage.Serving? {
      c := |conns| - 1;
    } else {
      c := SomeoneIsLive(conns[..|conns| - 1]);
    }
  }

  lemma {:induction false} NobodyIsLive(conns: seq<Connection>)
    requires Live(conns) == 0
    ensures forall c :: 0 <= c < |conns| ==> !conns[c].stage.Serving?
  {
    if conns == [] {
    } else {
      NobodyIsLive(conns[..|conns| - 1]);
    }
  }

  lemma {:induction false} ExecConcat(cfg: Config, s: State, first: seq<Action>, second: seq<Action>)
    requires Exec(cfg, s, first).Some?
    ensures Exec(cfg, s, first + second) == Exec(cfg, Exec(cfg, s, first).value, second)
  {
    var acts := first + second;
    if second == [] {
      assert acts == first;
    } else {
      ExecConcat(cfg, s, first, second[..|second| - 1]);
      assert acts[..|acts| - 1] == first + second[..|second| - 1];
    }
  }

  /**
    Draining: if no connections are accepted from some reachable state on and
    the handlers run until none can move, they do so after boundedly many
    moves; then all permits are back, every connection the accept loop is not
    holding has been closed exactly once, and, there being at least one permit,
    the accept loop goes on to admit a connection.
   */
  lemma PoolDrains(cfg: Config, before: seq<Action>, acts: seq<Action>)
    requires Exec(cfg, INITIAL, before + acts).Some? && Exec(cfg, INITIAL, before).Some?
    requires forall i :: 0 <= i < |acts| ==> acts[i].Worker?
    requires var s := Exec(cfg, INITIAL, before + acts).value;
             forall c: nat, m :: Step(cfg, s, Worker(c, m)) == None
    ensures |acts| <= TotalRemaining(cfg, Exec(cfg, INITIAL, before).value.conns)
    ensures var s := Exec(cfg, INITIAL, before + acts).value;
            && s.permits == 0
            && (forall c :: 0 <= c < |s.conns| && !AcceptLoopHolds(s.conns[c]) ==> s.conns[c].closes == 1)
            && (cfg.maxWorkers >= 1 ==> Exec(cfg, s, Admission(s)).Some?)
  {
    var s := Exec(cfg, INITIAL, before + acts).value;
    ExecConcat(cfg, INITIAL, before, acts);
    DrainIsBounded(cfg, Exec(cfg, INITIAL, before).value, acts);
    ReachableInv(cfg, before + acts);
    if Live(s.conns) > 0 {
      var c := SomeoneIsLive(s.conns);
      LiveHandlerCanMove(cfg, s, c);
    }
    NobodyIsLive(s.conns);
    forall c | 0 <= c < |s.conns| && !AcceptLoopHolds(s.conns[c])
      ensures s.conns[c].closes == 1
    {
      assert Consistent(s.conns[c]);
    }
    if cfg.maxWorkers >= 1 {
      FreePermitAdmits(cfg, s);
    }
  }

  /** While a permit is free, the next connection gets a handler at the start of its work. */
  lemma NextIsAdmitted(cfg: Config, s: State)
    requires s.listening && s.permits < cfg.maxWorkers
    ensures Exec(cfg, s, [Accept, TakePermit]) ==
            Some(State(s.permits + 1, true,
                       s.conns + [Connection(Serving(SettingReadDeadline), 0, 0, false, false, false)]))
  {
    var acts := [Accept, TakePermit];
    assert acts[..1] == [Accept] && [Accept][..0] == [];
    assert Exec(cfg, s, [Accept]) == Step(cfg, s, Accept);
    assert Exec(cfg, s, acts).value.conns
        == s.conns + [Connection(Serving(SettingReadDeadline), 0, 0, false, false, false)];
  }

  /**
    What the accept loop does until it next admits a connection: it admits the
    one it is about to decide on, and otherwise finishes turning one away, if
    it is doing that, and accepts another.
   */
  function Admission(s: State): (acts: seq<Action>)
    ensures 1 <= |acts| <= 3 && acts[|acts| - 1] == TakePermit
    ensures forall i :: 0 <= i < |acts| ==> !acts[i].Worker?
  {
    if s.listening || s.conns == [] then [Accept, TakePermit]
    else if s.conns[|s.conns| - 1].stage == Selecting then [TakePermit]
    else [CloseRejected, Accept, TakePermit]
  }

  /** While no permit is free, the next connection is closed unread, and the accept loop listens again. */
  lemma FullPoolTurnsAway(cfg: Config, s: State)
    requires s.listening && s.permits >= cfg.maxWorkers
    ensures Exec(cfg, s, [Accept, FindFull, CloseRejected]) ==
            Some(s.(conns := s.conns + [Connection(Rejected, 1, 0, false, false, false)]))
  {
    var acts := [Accept, FindFull, CloseRejected];
    assert acts[..2] == [Accept, FindFull] && [Accept, FindFull][..1] == [Accept] && [Accept][..0] == [];
    assert Exec(cfg, s, [Accept]) == Step(cfg, s, Accept);
    var accepted := Step(cfg, s, Accept).value;
    assert Exec(cfg, s, [Accept, FindFull]) == Step(cfg, accepted, FindFull);
    var full := Step(cfg, accepted, FindFull).value;
    assert Exec(cfg, s, acts) == Step(cfg, full, CloseRejected);
    assert Exec(cfg, s, acts).value.conns == s.conns + [Connection(Rejected, 1, 0, false, false, false)];
  }

  /** Whenever a permit is free the accept loop can admit a connection, whatever it is in the middle of. */
  lemma FreePermitAdmits(cfg: Config, s: State)
    requires Inv(cfg, s) && s.permits < cfg.maxWorkers
    ensures Exec(cfg, s, Admission(s)).Some?
  {
    hide Consistent, Live;
    if s.listening {
      NextIsAdmitted(cfg, s);
    } else if s.conns[|s.conns| - 1].stage == Selecting {
      assert [TakePermit][..0] == [];
    } else {
      assert [CloseRejected][..0] == [];
      assert Exec(cfg, s, [CloseRejected]) == Step(cfg, s, CloseRejected);
      NextIsAdmitted(cfg, Step(cfg, s, CloseRejected).value);
      ExecConcat(cfg, s, [CloseRejected], [Accept, TakePermit]);
      assert [CloseRejected] + [Accept, TakePermit] == Admission(s);
    }
  }

  /** From every reachable state the handlers can be run until none can move. */
  lemma DrainExists(cfg: Config, s: State) returns (acts: seq<Action>)
    requires Inv(cfg, s)
    ensures forall i :: 0 <= i < |acts| ==> acts[i].Worker?
    ensures Exec(cfg, s, acts).Some? && Exec(cfg, s, acts).value.permits == 0
    decreases TotalRemaining(cfg, s.conns)
  {
    if Live(s.conns) == 0 {
      acts := [];
    } else {
      var c := SomeoneIsLive(s.conns);
      var a := Worker(c, NextMove(s.conns[c].stage.phase));
      LiveHandlerCanMove(cfg, s, c);
      StepKeepsInv(cfg, s, a);
      WorkerStepDecreases(cfg, s, a);
      var t := Step(cfg, s, a).value;
      var rest := DrainExists(cfg, t);
      assert [a][..0] == [];
      assert Exec(cfg, s, [a]) == Some(t);
      ExecConcat(cfg, s, [a], rest);
      acts := [a] + rest;
    }
  }

  // ---- The size of the pool ----

  datatype WorkersError = NotSet | NotAnInteger | BelowOne

  /** `getMaxWorkers`, given the value of its environment variable. */
  function GetMaxWorkers(v: string): Result<nat, WorkersError> {
    if v == "" then Err(NotSet)
    else
      match Atoi(v)
      case None => Err(NotAnInteger)
      case Some(n) => if n < 1 then Err(BelowOne) else Ok(n)
  }

  /**
    What every setting does: it is the pool's size exactly when it denotes an
    int64 of at least one; and otherwise which of the three errors it is.
   */
  lemma MaxWorkersIff(v: string, n: int)
    ensures n >= 0 ==> (GetMaxWorkers(v) == Ok(n) <==> 1 <= n < TWO_TO_THE_63 && DenotesInt(v, n))
    ensures GetMaxWorkers(v) == Err(NotSet) <==> v == ""
    ensures GetMaxWorkers(v) == Err(BelowOne) <==> v != "" && exists m: Int64 :: m < 1 && DenotesInt(v, m)
    ensures GetMaxWorkers(v) == Err(NotAnInteger) <==> v != "" && !exists m: Int64 :: DenotesInt(v, m)
  {
    assert v == "" ==> Atoi(v) == None;
    hide Atoi, DenotesInt;
    AtoiIff(v, n);
    forall m: Int64
      ensures Atoi(v) == Some(m) <==> DenotesInt(v, m)
    {
      AtoiIff(v, m);
    }
    if Atoi(v).Some? {
      assert DenotesInt(v, Atoi(v).value);
    }
  }

  /** A printed integer configures the pool exactly when it is at least one (and an int64). */
  lemma MaxWorkersOfPrinted(n: int)
    ensures GetMaxWorkers(FormatInt(n)) ==
            if n < -TWO_TO_THE_63 || n >= TWO_TO_THE_63 then Err(NotAnInteger)
            else if n < 1 then Err(BelowOne)
            else Ok(n)
  {
    AtoiOfFormat(n);
  }

  /** Whatever the setting, an accepted pool size admits the first connection. */
  lemma ConfiguredPoolAdmits(v: string, readBudget: nat, writeBudget: nat)
    requires GetMaxWorkers(v).Ok?
    ensures Exec(Config(GetMaxWorkers(v).value, readBudget, writeBudget), INITIAL, [Accept, TakePermit]).Some?
  {
    NextIsAdmitted(Config(GetMaxWorkers(v).value, readBudget, writeBudget), INITIAL);
  }
}
