/** The fix path of the consistency check (pkg/gtids/gtid.go):
    `applyGtidFixes` and the branch of `CheckGtidSetSubset` that decides
    whether to fix, where, and with which statements. The database is an
    oracle: `db(pos, k)` is the outcome of the `k`-th call (counting from 0)
    of the statement at position `pos` of the trace. Each operation returns
    the trace of statements it sent. */
module Repair {
  import opened Wrappers
  import opened GtidSet
  import opened Explode
  import opened Retry
  import opened Dialect

  /** `db1`, the source, or `db2`, the replica. */
  datatype Node = Source | Replica

  /** The statements the fix path sends. */
  datatype Statement =
    | SelectVersion
    | SetGtidNext(gtid: string)
    | Begin
    | Commit
    | SetGtidNextAutomatic
    | StopReplication(dialect: Dialect)
    | StartReplication(dialect: Dialect)
    | DisableBinlog
    | DisableSessionBinlog
    | EnableBinlog
  {
    /** The SQL text sent for the statement. */
    function Sql(): string {
      match this
      case SelectVersion => "SELECT VERSION()"
      case SetGtidNext(g) => "SET GTID_NEXT='" + g + "'"
      case Begin => "BEGIN"
      case Commit => "COMMIT"
      case SetGtidNextAutomatic => "SET GTID_NEXT='AUTOMATIC'"
      case StopReplication(d) => d.StopCmd()
      case StartReplication(d) => d.StartCmd()
      case DisableBinlog => "SET sql_log_bin = 0"
      case DisableSessionBinlog => "SET SESSION sql_log_bin = 0"
      case EnableBinlog => "SET sql_log_bin = 1"
    }
  }

  /** One statement of the trace: where it was sent, what it was, and the
      run of calls it took (one call when it is not retried). */
  datatype Step = Step(node: Node, stmt: Statement, run: RetryRun)

  type Db = (nat, nat) -> CallOutcome

  /** The calls of the statement at position `pos`. */
  function CallsAt(db: Db, pos: nat): nat -> CallOutcome {
    (k: nat) => db(pos, k)
  }

  /** The run of the statement at each position when it is sent through
      `retryDatabaseOperation(…, 3)`. */
  type Runs = nat -> RetryRun

  function RetriedRuns(db: Db): Runs {
    (pos: nat) => RetryDatabaseOperation(CallsAt(db, pos), 3)
  }

  /** A statement sent once, its error returned as it is; `once(pos)` is
      the outcome of the single call at position `pos`. */
  function Once(once: nat -> CallOutcome, node: Node, stmt: Statement, pos: nat): (s: Step)
    ensures s.node == node && s.stmt == stmt
    ensures s.run.calls == 1 && s.run.delays == []
    ensures s.run.error.None? <==> once(pos).Succeeded?
    ensures s.run.error.Some? ==> s.run.error.value == Permanent(once(pos).message)
  {
    match once(pos)
    case Succeeded => Step(node, stmt, RetryRun(None, 1, []))
    case Failed(m) => Step(node, stmt, RetryRun(Some(Permanent(m)), 1, []))
  }

  /** The first calls of the oracle: a statement sent without retries. */
  function FirstCalls(db: Db): nat -> CallOutcome {
    (pos: nat) => db(pos, 0)
  }

  predicate Ok(s: Step) {
    s.run.error.None?
  }

  /** Sends `stmts` in order from trace position `pos`, stopping after the
      first one that fails. */
  function Send(runs: Runs, node: Node, stmts: seq<Statement>, pos: nat): seq<Step>
  {
    if stmts == [] then []
    else
      var step := Step(node, stmts[0], runs(pos));
      if !Ok(step) then [step] else [step] + Send(runs, node, stmts[1..], pos + 1)
  }

  /** Fail-fast sending: `steps` are a prefix of the statements, each at
      its own position, every one but the last successful, and cut short
      only by a failure. */
  predicate SentFailFast(steps: seq<Step>, runs: Runs, node: Node, stmts: seq<Statement>, pos: nat) {
    && |steps| <= |stmts|
    && (forall i :: 0 <= i < |steps| ==> steps[i] == Step(node, stmts[i], runs(pos + i)))
    && (forall i :: 0 <= i < |steps| - 1 ==> Ok(steps[i]))
    && (|steps| < |stmts| ==> steps != [] && !Ok(steps[|steps| - 1]))
  }

  lemma {:induction false} SendSpec(runs: Runs, node: Node, stmts: seq<Statement>, pos: nat)
    ensures SentFailFast(Send(runs, node, stmts, pos), runs, node, stmts, pos)
  {
    if stmts != [] {
      var step := Step(node, stmts[0], runs(pos));
      if Ok(step) {
        SendSpec(runs, node, stmts[1..], pos + 1);
        SendCons(runs, node, stmts, pos);
        SentFailFastCons(step, Send(runs, node, stmts[1..], pos + 1), runs, node, stmts, pos);
      } else {
        assert Send(runs, node, stmts, pos) == [step];
      }
    }
  }

  lemma SentFailFastCons(step: Step, rest: seq<Step>, runs: Runs, node: Node, stmts: seq<Statement>, pos: nat)
    requires stmts != [] && step == Step(node, stmts[0], runs(pos)) && Ok(step)
    requires SentFailFast(rest, runs, node, stmts[1..], pos + 1)
    ensures SentFailFast([step] + rest, runs, node, stmts, pos)
  {
    var steps := [step] + rest;
    assert forall i :: 1 <= i < |steps| ==> steps[i] == rest[i - 1] && stmts[i] == stmts[1..][i - 1];
  }

  /** Every statement was sent and the last one succeeded. */
  predicate Completed(steps: seq<Step>, stmts: seq<Statement>) {
    |steps| == |stmts| && (steps == [] || Ok(steps[|steps| - 1]))
  }

  /** Sending two lists one after the other, the second only when the first
      completed, is sending their concatenation. */
  lemma {:induction false} SendConcat(runs: Runs, node: Node, a: seq<Statement>, b: seq<Statement>, pos: nat)
    ensures var first := Send(runs, node, a, pos);
      Send(runs, node, a + b, pos) ==
        if Completed(first, a) then first + Send(runs, node, b, pos + |a|) else first
  {
    if a == [] {
      assert a + b == b;
      assert Send(runs, node, a, pos) == [];
      assert [] + Send(runs, node, b, pos) == Send(runs, node, b, pos);
    } else if Ok(Step(node, a[0], runs(pos))) {
      SendConcat(runs, node, a[1..], b, pos + 1);
      SendConcatOk(runs, node, a, b, pos);
    } else {
      var ab := a + b;
      assert ab[0] == a[0];
    }
  }

  /** The inductive step of `SendConcat`: a first statement that succeeds
      is followed by the rest of `a`, then `b`. */
  lemma SendConcatOk(runs: Runs, node: Node, a: seq<Statement>, b: seq<Statement>, pos: nat)
    requires a != [] && Ok(Step(node, a[0], runs(pos)))
    requires var rest := Send(runs, node, a[1..], pos + 1);
      Send(runs, node, a[1..] + b, pos + 1) ==
        if Completed(rest, a[1..]) then rest + Send(runs, node, b, pos + 1 + |a[1..]|) else rest
    ensures var first := Send(runs, node, a, pos);
      Send(runs, node, a + b, pos) ==
        if Completed(first, a) then first + Send(runs, node, b, pos + |a|) else first
  {
    var step := Step(node, a[0], runs(pos));
    var rest := Send(runs, node, a[1..], pos + 1);
    var both := Send(runs, node, a[1..] + b, pos + 1);
    SendCons(runs, node, a, pos);
    assert (a + b)[0] == a[0] && (a + b)[1..] == a[1..] + b;
    SendCons(runs, node, a + b, pos);
    assert Send(runs, node, a, pos) == [step] + rest;
    assert Send(runs, node, a + b, pos) == [step] + both;
    CompletedCons(step, rest, a);
    if Completed(rest, a[1..]) {
      assert pos + 1 + |a[1..]| == pos + |a|;
      var after := Send(runs, node, b, pos + |a|);
      assert both == rest + after;
      assert [step] + (rest + after) == ([step] + rest) + after;
    } else {
      assert both == rest;
    }
  }

  /** A first statement that succeeds is followed by the rest. */
  lemma SendCons(runs: Runs, node: Node, stmts: seq<Statement>, pos: nat)
    requires stmts != [] && Ok(Step(node, stmts[0], runs(pos)))
    ensures Send(runs, node, stmts, pos) ==
      [Step(node, stmts[0], runs(pos))] + Send(runs, node, stmts[1..], pos + 1)
  {
  }

  /** A successful step before a run completes the longer list exactly when
      the run completes the rest. */
  lemma CompletedCons(step: Step, rest: seq<Step>, stmts: seq<Statement>)
    requires stmts != [] && Ok(step)
    ensures Completed([step] + rest, stmts) == Completed(rest, stmts[1..])
  {
    if rest != [] {
      assert ([step] + rest)[|rest|] == rest[|rest| - 1];
    }
  }

  // ---------------------------------------------------------------------
  // applyGtidFixes

  /** The four statements sent for one errant transaction, and the error
      each one's failure is reported as. */
  datatype Stage = SettingNext | Beginning | Committing | Resetting

  function StageAt(k: nat): Stage
    requires k < 4
  {
    [SettingNext, Beginning, Committing, Resetting][k]
  }

  /** Pin the session to the transaction, commit an empty transaction under
      it, and unpin. */
  function EntryStatements(gtid: string): seq<Statement> {
    [SetGtidNext(gtid), Begin, Commit, SetGtidNextAutomatic]
  }

  /** `failed to set GTID_NEXT for e`, `failed to begin transaction for e`,
      `failed to commit transaction for e` or `failed to reset GTID_NEXT for
      e`, wrapping the retry's error. */
  datatype FixError = FixError(stage: Stage, gtid: string, cause: OpError)

  datatype FixRun = FixRun(steps: seq<Step>, error: Option<FixError>)

  /** One iteration of the loop of `applyGtidFixes`. */
  function ApplyEntry(runs: Runs, node: Node, gtid: string, pos: nat): FixRun
  {
    var steps := Send(runs, node, EntryStatements(gtid), pos);
    SendSpec(runs, node, EntryStatements(gtid), pos);
    if steps != [] && !Ok(steps[|steps| - 1]) then
      FixRun(steps, Some(FixError(StageAt(|steps| - 1), gtid, steps[|steps| - 1].run.error.value)))
    else FixRun(steps, None)
  }

  /** `applyGtidFixes(db, entries, …)`, from trace position `pos`: the four
      statements of each transaction in order, stopping at the first one
      whose retries fail. */
  function ApplyGtidFixes(runs: Runs, node: Node, gtids: seq<string>, pos: nat): FixRun
  {
    if gtids == [] then FixRun([], None)
    else
      var first := ApplyEntry(runs, node, gtids[0], pos);
      if first.error.Some? then first
      else
        var rest := ApplyGtidFixes(runs, node, gtids[1..], pos + 4);
        FixRun(first.steps + rest.steps, rest.error)
  }

  /** The statements of a complete run, as a reference: the transactions'
      four statements laid end to end. */
  function Plan(gtids: seq<string>): (p: seq<Statement>)
    ensures |p| == 4 * |gtids|
  {
    if gtids == [] then [] else EntryStatements(gtids[0]) + Plan(gtids[1..])
  }

  /** Position `i` of the plan holds stage `i % 4` of transaction `i / 4`. */
  lemma {:induction false} PlanAt(gtids: seq<string>, i: nat)
    requires i < 4 * |gtids|
    ensures Plan(gtids)[i] == EntryStatements(gtids[i / 4])[i % 4]
  {
    if i >= 4 {
      PlanAt(gtids[1..], i - 4);
      assert (i - 4) / 4 == i / 4 - 1 && (i - 4) % 4 == i % 4;
    }
  }

  /** One transaction's iteration is the fail-fast sending of its four
      statements. It has no error exactly when all four were sent and the
      last succeeded; otherwise the error names the stage of the last
      statement sent, which failed, and wraps that statement's error. */
  lemma ApplyEntrySent(runs: Runs, node: Node, gtid: string, pos: nat)
    ensures var r := ApplyEntry(runs, node, gtid, pos);
      && r.steps == Send(runs, node, EntryStatements(gtid), pos)
      && (r.error.None? <==> Completed(r.steps, EntryStatements(gtid)))
      && (r.error.None? ==> |r.steps| == 4)
      && (r.error.Some? ==>
            && 0 < |r.steps| <= 4 && !Ok(r.steps[|r.steps| - 1])
            && r.error.value == FixError(StageAt(|r.steps| - 1), gtid, r.steps[|r.steps| - 1].run.error.value))
  {
    SendSpec(runs, node, EntryStatements(gtid), pos);
  }

  /** A completed run followed by a run that is empty exactly when its
      statements are completes the concatenated statements exactly when the
      second run completes its own. */
  lemma CompletedAppend(x: seq<Step>, y: seq<Step>, s: seq<Statement>, t: seq<Statement>)
    requires Completed(x, s) && x != []
    requires y == [] <==> t == []
    ensures Completed(x + y, s + t) <==> Completed(y, t)
  {
    if y != [] {
      assert (x + y)[|x + y| - 1] == y[|y| - 1];
    } else {
      assert x + y == x && s + t == s;
    }
  }

  /** Sending a non-empty list sends something. */
  lemma SendNonEmpty(runs: Runs, node: Node, stmts: seq<Statement>, pos: nat)
    ensures Send(runs, node, stmts, pos) == [] <==> stmts == []
  {
  }

  /** The nested loop of `applyGtidFixes` is one fail-fast pass over the
      plan: it sends exactly the statements a flat pass sends, and reports an
      error exactly when that pass did not complete. */
  lemma {:induction false} ApplyIsPlanSent(runs: Runs, node: Node, gtids: seq<string>, pos: nat)
    ensures var r := ApplyGtidFixes(runs, node, gtids, pos);
      && r.steps == Send(runs, node, Plan(gtids), pos)
      && (r.error.None? <==> Completed(r.steps, Plan(gtids)))
    decreases |gtids|
  {
    if gtids != [] {
      var e := EntryStatements(gtids[0]);
      var tail := Plan(gtids[1..]);
      assert Plan(gtids) == e + tail;
      ApplyEntrySent(runs, node, gtids[0], pos);
      SendConcat(runs, node, e, tail, pos);
      var first := ApplyEntry(runs, node, gtids[0], pos);
      if first.error.None? {
        ApplyIsPlanSent(runs, node, gtids[1..], pos + 4);
        var rest := ApplyGtidFixes(runs, node, gtids[1..], pos + 4);
        assert ApplyGtidFixes(runs, node, gtids, pos) == FixRun(first.steps + rest.steps, rest.error);
        SendNonEmpty(runs, node, tail, pos + 4);
        CompletedAppend(first.steps, rest.steps, e, tail);
      }
    }
  }

  /** The error of a run names the stage and transaction of the statement
      that failed, the last one sent, and wraps that statement's error. */
  predicate NamesFailure(r: FixRun, gtids: seq<string>) {
    var n := |r.steps|;
    r.error.Some? ==>
      && 0 < n <= 4 * |gtids| && !Ok(r.steps[n - 1])
      && r.error.value == FixError(StageAt((n - 1) % 4), gtids[(n - 1) / 4], r.steps[n - 1].run.error.value)
  }

  /** A run of the later transactions that names its failure still names it
      after a completed first transaction's four statements. */
  lemma NamesFailureShift(first: seq<Step>, rest: FixRun, gtids: seq<string>)
    requires |first| == 4 && gtids != []
    requires NamesFailure(rest, gtids[1..])
    ensures NamesFailure(FixRun(first + rest.steps, rest.error), gtids)
  {
    var steps := first + rest.steps;
    var m := |rest.steps|;
    if rest.error.Some? {
      assert steps[|steps| - 1] == rest.steps[m - 1];
      assert (4 + m - 1) % 4 == (m - 1) % 4 && (4 + m - 1) / 4 == (m - 1) / 4 + 1;
      assert gtids[(4 + m - 1) / 4] == gtids[1..][(m - 1) / 4];
    }
  }

  /** The error names the stage and transaction of the statement that
      failed, the last one sent, and wraps that statement's error. */
  lemma {:induction false} ApplyErrorNamesFailure(runs: Runs, node: Node, gtids: seq<string>, pos: nat)
    ensures NamesFailure(ApplyGtidFixes(runs, node, gtids, pos), gtids)
    decreases |gtids|
  {
    if gtids != [] {
      var first := ApplyEntry(runs, node, gtids[0], pos);
      ApplyEntrySent(runs, node, gtids[0], pos);
      if first.error.None? {
        ApplyErrorNamesFailure(runs, node, gtids[1..], pos + 4);
        var rest := ApplyGtidFixes(runs, node, gtids[1..], pos + 4);
        NamesFailureShift(first.steps, rest, gtids);
        assert ApplyGtidFixes(runs, node, gtids, pos) == FixRun(first.steps + rest.steps, rest.error);
      } else {
        assert ApplyGtidFixes(runs, node, gtids, pos) == first;
      }
    }
  }

  /** The steps of a run follow the plan: they are a prefix of it, each
      statement retried at its own trace position, and all but the last
      succeeded; there is no error exactly when the whole plan was sent and
      its last statement succeeded. */
  predicate FollowsPlan(r: FixRun, runs: Runs, node: Node, gtids: seq<string>, pos: nat) {
    var n := |r.steps|;
    && n <= 4 * |gtids|
    && (forall i :: 0 <= i < n ==>
          r.steps[i] == Step(node, EntryStatements(gtids[i / 4])[i % 4], runs(pos + i)))
    && (forall i :: 0 <= i < n - 1 ==> Ok(r.steps[i]))
    && (r.error.None? <==> n == 4 * |gtids| && (n == 0 || Ok(r.steps[n - 1])))
  }

  /** What `applyGtidFixes` does, in full: it follows the plan and, when it
      fails, names the failed statement, which is the last one sent. */
  lemma ApplyGtidFixesSpec(runs: Runs, node: Node, gtids: seq<string>, pos: nat)
    ensures var r := ApplyGtidFixes(runs, node, gtids, pos);
      FollowsPlan(r, runs, node, gtids, pos) && NamesFailure(r, gtids)
  {
    ApplyStepsFollowPlan(runs, node, gtids, pos);
    ApplyErrorNamesFailure(runs, node, gtids, pos);
  }

  lemma ApplyStepsFollowPlan(runs: Runs, node: Node, gtids: seq<string>, pos: nat)
    ensures FollowsPlan(ApplyGtidFixes(runs, node, gtids, pos), runs, node, gtids, pos)
  {
    var r := ApplyGtidFixes(runs, node, gtids, pos);
    var plan := Plan(gtids);
    ApplyIsPlanSent(runs, node, gtids, pos);
    SendSpec(runs, node, plan, pos);
    forall i | 0 <= i < |r.steps|
      ensures r.steps[i] == Step(node, EntryStatements(gtids[i / 4])[i % 4], runs(pos + i))
    {
      PlanAt(gtids, i);
    }
  }

  // ---------------------------------------------------------------------
  // The session's GTID_NEXT

  /** The session's `GTID_NEXT` after a step: the transaction it was pinned
      to, or `None` for `AUTOMATIC`. A statement that failed changes
      nothing. */
  function Effect(state: Option<string>, step: Step): Option<string> {
    if !Ok(step) then state
    else
      match step.stmt
      case SetGtidNext(g) => Some(g)
      case SetGtidNextAutomatic => None
      case _ => state
  }

  function SessionAfter(state: Option<string>, steps: seq<Step>): Option<string>
    decreases |steps|
  {
    if steps == [] then state else SessionAfter(Effect(state, steps[0]), steps[1..])
  }

  lemma {:induction false} SessionAfterConcat(state: Option<string>, a: seq<Step>, b: seq<Step>)
    ensures SessionAfter(state, a + b) == SessionAfter(SessionAfter(state, a), b)
    decreases |a|
  {
    if a == [] {
      assert a + b == b;
    } else {
      assert (a + b)[0] == a[0] && (a + b)[1..] == a[1..] + b;
      SessionAfterConcat(Effect(state, a[0]), a[1..], b);
    }
  }

  /** One transaction leaves the session unpinned when it completes, as it
      was when its `SET GTID_NEXT` fails, and pinned to it when a later
      statement fails. */
  lemma EntrySession(runs: Runs, node: Node, gtid: string, pos: nat, state: Option<string>)
    ensures var r := ApplyEntry(runs, node, gtid, pos);
      SessionAfter(state, r.steps) ==
        if r.error.None? then None
        else if r.error.value.stage == SettingNext then state
        else Some(gtid)
  {
    var r := ApplyEntry(runs, node, gtid, pos);
    var e := EntryStatements(gtid);
    SendSpec(runs, node, e, pos);
    var st := r.steps;
    if st != [] {
      var s1 := Effect(state, st[0]);
      assert SessionAfter(state, st) == SessionAfter(s1, st[1..]);
      assert st[0].stmt == SetGtidNext(gtid);
      if |st| >= 2 {
        var s2 := Effect(s1, st[1]);
        assert SessionAfter(s1, st[1..]) == SessionAfter(s2, st[2..]);
        assert st[1].stmt == Begin;
        if |st| >= 3 {
          var s3 := Effect(s2, st[2]);
          assert SessionAfter(s2, st[2..]) == SessionAfter(s3, st[3..]);
          assert st[2].stmt == Commit;
          if |st| == 4 {
            assert SessionAfter(s3, st[3..]) == SessionAfter(Effect(s3, st[3]), []);
            assert st[3].stmt == SetGtidNextAutomatic;
          }
        }
      }
    }
  }

  /** The run is fail-fast and does not clean up: after a failure past the
      `SET GTID_NEXT` of a transaction, the session stays pinned to that
      transaction; otherwise it is back to `AUTOMATIC`. */
  lemma {:induction false} GtidNextLeftPinned(runs: Runs, node: Node, gtids: seq<string>, pos: nat)
    ensures var r := ApplyGtidFixes(runs, node, gtids, pos);
      SessionAfter(None, r.steps) ==
        if r.error.Some? && r.error.value.stage != SettingNext then Some(r.error.value.gtid) else None
    decreases |gtids|
  {
    if gtids != [] {
      var first := ApplyEntry(runs, node, gtids[0], pos);
      EntrySession(runs, node, gtids[0], pos, None);
      if first.error.None? {
        var rest := ApplyGtidFixes(runs, node, gtids[1..], pos + 4);
        SessionAfterConcat(None, first.steps, rest.steps);
        GtidNextLeftPinned(runs, node, gtids[1..], pos + 4);
      }
    }
  }

  // ---------------------------------------------------------------------
  // The fix branch of CheckGtidSetSubset

  /** What `getBinaryLogInfo` gave: its error, or the text the log-message
      pattern re-extracted from the executed set, if it matched. */
  datatype Binlog = BinlogError(message: string) | BinlogRead(reextracted: Option<string>)

  /** The `-fix` and `-fix-replica` options. */
  datatype Flags = Flags(fix: bool, fixReplica: bool)

  /** The errors of the fix branch, each wrapping its cause. */
  datatype RepairError =
    | BinlogFailed(message: string)
    | ParseFailed(error: ParseError)
    | VersionFailed(cause: OpError)
    | StopFailed(cause: OpError)
    | ApplyFailed(node: Node, fixError: FixError)
    | EnableBinlogFailed(cause: OpError)
    | StartFailed(cause: OpError)

  datatype Repair = Repair(steps: seq<Step>, error: Option<RepairError>)

  function Statements(steps: seq<Step>): (stmts: seq<Statement>)
    ensures |stmts| == |steps| && forall i :: 0 <= i < |steps| ==> stmts[i] == steps[i].stmt
  {
    seq(|steps|, i requires 0 <= i < |steps| => steps[i].stmt)
  }

  /** Fixing the source: the transactions are committed on `db1`. */
  function FixSource(gtids: seq<string>, runs: Runs): Repair
  {
    var r := ApplyGtidFixes(runs, Source, gtids, 0);
    Repair(r.steps, if r.error.Some? then Some(ApplyFailed(Source, r.error.value)) else None)
  }

  /** Fixing the replica: find the command dialect, stop replication,
      disable binary logging (twice, ignoring failures), commit the
      transactions, re-enable binary logging and restart replication. */
  function FixReplica(gtids: seq<string>, version: string, runs: Runs, once: nat -> CallOutcome): Repair
  {
    var v := Step(Replica, SelectVersion, runs(0));
    if !Ok(v) then Repair([v], Some(VersionFailed(v.run.error.value)))
    else
      var d := ReplicationDialect(version);
      var stop := Once(once, Replica, StopReplication(d), 1);
      if !Ok(stop) then Repair([v, stop], Some(StopFailed(stop.run.error.value)))
      else
        var prep := [v, stop, Once(once, Replica, DisableBinlog, 2), Once(once, Replica, DisableSessionBinlog, 3)];
        var c := CommitAndResume(gtids, d, runs, once);
        Repair(prep + c.steps, c.error)
  }

  /** A replica repair after its four preparing statements: commit the
      transactions from trace position 4 and, if that worked, resume. */
  function CommitAndResume(gtids: seq<string>, d: Dialect, runs: Runs, once: nat -> CallOutcome): Repair
  {
    var a := ApplyGtidFixes(runs, Replica, gtids, 4);
    if a.error.Some? then Repair(a.steps, Some(ApplyFailed(Replica, a.error.value)))
    else
      var t := Resume(d, once, 4 + |a.steps|);
      Repair(a.steps + t.steps, t.error)
  }

  /** The end of a replica repair, from trace position `n`: re-enable binary
      logging and, if that worked, restart replication, each sent once to
      the replica. */
  function Resume(d: Dialect, once: nat -> CallOutcome, n: nat): (t: Repair)
    ensures 1 <= |t.steps| <= 2 && AllTo(t.steps, Replica)
    ensures t.steps[0].stmt == EnableBinlog
    ensures |t.steps| == 2 <==> once(n).Succeeded?
    ensures |t.steps| == 2 ==> t.steps[1].stmt == StartReplication(d)
    ensures t.error.None? <==> once(n).Succeeded? && once(n + 1).Succeeded?
  {
    var enable := Once(once, Replica, EnableBinlog, n);
    if !Ok(enable) then Repair([enable], Some(EnableBinlogFailed(enable.run.error.value)))
    else
      var start := Once(once, Replica, StartReplication(d), n + 1);
      Repair([enable, start], if Ok(start) then None else Some(StartFailed(start.run.error.value)))
  }

  /** The errant text the fixes are planned from: the re-extracted text when
      the pattern matched, the `gtid_subtract` result otherwise. */
  function ErrantText(errant: string, re: Option<string>): string {
    re.GetOr(errant)
  }

  /** The fix branch for one target, once `gtid_subtract` has given the
      errant set `errant` (`runs` and `once` answer for the statements sent
      with and without retries). */
  function FixBranch(errant: string, binlog: Binlog, version: string, flags: Flags,
                     runs: Runs, once: nat -> CallOutcome): Repair
  {
    if errant == "" then Repair([], None)
    else
      match binlog
      case BinlogError(m) => Repair([], Some(BinlogFailed(m)))
      case BinlogRead(re) =>
        match ParseErrantTransactions(ErrantText(errant, re))
        case Failure(e) => Repair([], Some(ParseFailed(e)))
        case Success(gtids) => FixPlanned(gtids, version, flags, runs, once)
  }

  /** The branch once the errant transactions are listed: fixes run only
      when asked for and when there is something to fix, on the replica when
      `-fix-replica` is given and on the source otherwise. */
  function FixPlanned(gtids: seq<string>, version: string, flags: Flags,
                      runs: Runs, once: nat -> CallOutcome): Repair
  {
    if !((flags.fix || flags.fixReplica) && |gtids| > 0) then Repair([], None)
    else if flags.fixReplica then FixReplica(gtids, version, runs, once)
    else FixSource(gtids, runs)
  }

  /** The branch against a database oracle: statements sent with retries
      see `retryDatabaseOperation(…, 3)` over their calls, the others their
      first call. */
  function CheckFix(errant: string, binlog: Binlog, version: string, flags: Flags, db: Db): Repair
  {
    FixBranch(errant, binlog, version, flags, RetriedRuns(db), FirstCalls(db))
  }

  /** Every statement of a run goes to the node it was given, and a
      non-empty run sends at least one statement. */
  lemma ApplyTargetsNode(runs: Runs, node: Node, gtids: seq<string>, pos: nat)
    ensures var r := ApplyGtidFixes(runs, node, gtids, pos);
      && (forall i :: 0 <= i < |r.steps| ==> r.steps[i].node == node)
      && (gtids != [] ==> r.steps != [])
  {
    ApplyGtidFixesSpec(runs, node, gtids, pos);
  }

  /** A complete run sent exactly the plan. */
  lemma ApplyCompleteIsPlan(runs: Runs, node: Node, gtids: seq<string>, pos: nat)
    ensures var r := ApplyGtidFixes(runs, node, gtids, pos);
      r.error.None? ==> Statements(r.steps) == Plan(gtids)
  {
    ApplyIsPlanSent(runs, node, gtids, pos);
    SendSpec(runs, node, Plan(gtids), pos);
  }

  /** Every statement of `steps` goes to `node`. */
  predicate AllTo(steps: seq<Step>, node: Node) {
    forall i :: 0 <= i < |steps| ==> steps[i].node == node
  }

  lemma AllToConcat(a: seq<Step>, b: seq<Step>, node: Node)
    requires AllTo(a, node) && AllTo(b, node)
    ensures AllTo(a + b, node)
  {
  }

  /** The replica repair sends something, and only to the replica. */
  lemma ReplicaTargets(gtids: seq<string>, version: string, runs: Runs, once: nat -> CallOutcome)
    ensures var r := FixReplica(gtids, version, runs, once);
      r.steps != [] && AllTo(r.steps, Replica)
  {
    var r := FixReplica(gtids, version, runs, once);
    var v := Step(Replica, SelectVersion, runs(0));
    var d := ReplicationDialect(version);
    var stop := Once(once, Replica, StopReplication(d), 1);
    if Ok(v) && Ok(stop) {
      var prep := [v, stop, Once(once, Replica, DisableBinlog, 2), Once(once, Replica, DisableSessionBinlog, 3)];
      var c := CommitAndResume(gtids, d, runs, once);
      assert r.steps == prep + c.steps;
      CommitTargets(gtids, d, runs, once);
      AllToConcat(prep, c.steps, Replica);
    } else if !Ok(v) {
      assert r.steps == [v];
    } else {
      assert r.steps == [v, stop];
    }
  }

  lemma CommitTargets(gtids: seq<string>, d: Dialect, runs: Runs, once: nat -> CallOutcome)
    ensures AllTo(CommitAndResume(gtids, d, runs, once).steps, Replica)
  {
    var a := ApplyGtidFixes(runs, Replica, gtids, 4);
    ApplyTargetsNode(runs, Replica, gtids, 4);
    AllToConcat(a.steps, Resume(d, once, 4 + |a.steps|).steps, Replica);
  }

  /** The source repair sends something when there is a transaction to fix,
      and only to the source. */
  lemma SourceTargets(gtids: seq<string>, runs: Runs)
    ensures var r := FixSource(gtids, runs);
      (r.steps != [] <==> gtids != []) && AllTo(r.steps, Source)
  {
    ApplyTargetsNode(runs, Source, gtids, 0);
  }

  /** Gating and target selection: something is sent exactly when `-fix` or
      `-fix-replica` is given and there is a transaction to fix; with
      `-fix-replica` every statement goes to the replica, whatever `-fix`
      says, and otherwise every statement goes to the source. */
  lemma FixGatingAndTarget(gtids: seq<string>, version: string, flags: Flags,
                           runs: Runs, once: nat -> CallOutcome)
    ensures var r := FixPlanned(gtids, version, flags, runs, once);
      && (r.steps != [] <==> (flags.fix || flags.fixReplica) && gtids != [])
      && AllTo(r.steps, if flags.fixReplica then Replica else Source)
  {
    ReplicaTargets(gtids, version, runs, once);
    SourceTargets(gtids, runs);
  }

  lemma StatementsConcat(a: seq<Step>, b: seq<Step>)
    ensures Statements(a + b) == Statements(a) + Statements(b)
  {
  }

  /** The statements a replica repair opens with: read the version, stop
      replication, and disable binary logging twice. */
  function Preparation(d: Dialect): seq<Statement> {
    [SelectVersion, StopReplication(d), DisableBinlog, DisableSessionBinlog]
  }

  /** A replica repair without error sent, in order, the preparation, the
      whole plan, the re-enabling of binary logging and the restart, with the
      stop and start commands of the dialect the version selects. */
  lemma ReplicaFixSequence(gtids: seq<string>, version: string, runs: Runs, once: nat -> CallOutcome)
    ensures var r := FixReplica(gtids, version, runs, once);
      var d := ReplicationDialect(version);
      r.error.None? ==> Statements(r.steps) == Preparation(d) + Plan(gtids) + [EnableBinlog, StartReplication(d)]
  {
    var r := FixReplica(gtids, version, runs, once);
    if r.error.None? {
      var d := ReplicationDialect(version);
      var v := Step(Replica, SelectVersion, runs(0));
      var stop := Once(once, Replica, StopReplication(d), 1);
      var prep := [v, stop, Once(once, Replica, DisableBinlog, 2), Once(once, Replica, DisableSessionBinlog, 3)];
      var a := ApplyGtidFixes(runs, Replica, gtids, 4);
      ApplyCompleteIsPlan(runs, Replica, gtids, 4);
      var tail := Resume(d, once, 4 + |a.steps|).steps;
      var c := CommitAndResume(gtids, d, runs, once);
      assert c.steps == a.steps + tail;
      assert r.steps == prep + c.steps;
      StatementsConcat(prep, c.steps);
      StatementsConcat(a.steps, tail);
      assert Statements(prep) == Preparation(d);
      assert Statements(tail) == [EnableBinlog, StartReplication(d)];
      assert Preparation(d) + Plan(gtids) + [EnableBinlog, StartReplication(d)]
          == Preparation(d) + (Plan(gtids) + [EnableBinlog, StartReplication(d)]);
    }
  }

  /** A source repair without error sent exactly the plan. */
  lemma SourceFixSequence(gtids: seq<string>, runs: Runs)
    ensures var r := FixSource(gtids, runs);
      r.error.None? ==> Statements(r.steps) == Plan(gtids)
  {
    ApplyCompleteIsPlan(runs, Source, gtids, 0);
  }

  /** The statements `applyGtidFixes` sends. */
  predicate IsFixStatement(s: Statement) {
    s.SetGtidNext? || s.Begin? || s.Commit? || s.SetGtidNextAutomatic?
  }

  lemma ApplySendsFixStatements(runs: Runs, node: Node, gtids: seq<string>, pos: nat)
    ensures var r := ApplyGtidFixes(runs, node, gtids, pos);
      forall i :: 0 <= i < |r.steps| ==> IsFixStatement(r.steps[i].stmt)
  {
    ApplyGtidFixesSpec(runs, node, gtids, pos);
  }

  /** When committing the transactions on the replica fails, the stop had
      succeeded, and after the preparation only transaction statements were
      sent: binary logging was not re-enabled and replication not
      restarted. */
  lemma ReplicaLeftStopped(gtids: seq<string>, version: string, runs: Runs, once: nat -> CallOutcome)
    ensures var r := FixReplica(gtids, version, runs, once);
      var d := ReplicationDialect(version);
      r.error.Some? && r.error.value.ApplyFailed? ==>
        && |r.steps| > 4 && Statements(r.steps[..4]) == Preparation(d) && Ok(r.steps[1])
        && (forall i :: 4 <= i < |r.steps| ==> IsFixStatement(r.steps[i].stmt))
  {
    var r := FixReplica(gtids, version, runs, once);
    if r.error.Some? && r.error.value.ApplyFailed? {
      var d := ReplicationDialect(version);
      var v := Step(Replica, SelectVersion, runs(0));
      var stop := Once(once, Replica, StopReplication(d), 1);
      var prep := [v, stop, Once(once, Replica, DisableBinlog, 2), Once(once, Replica, DisableSessionBinlog, 3)];
      var a := ApplyGtidFixes(runs, Replica, gtids, 4);
      ApplySendsFixStatements(runs, Replica, gtids, 4);
      assert gtids != [];
      ApplyTargetsNode(runs, Replica, gtids, 4);
      assert CommitAndResume(gtids, d, runs, once).steps == a.steps;
      assert r.steps == prep + a.steps;
      assert r.steps[..4] == prep;
      assert forall i :: 4 <= i < |r.steps| ==> r.steps[i] == a.steps[i - 4];
    }
  }

  /** Failures to disable binary logging are only logged: the outcomes of
      the two `sql_log_bin = 0` statements change neither what is sent nor
      the error returned. */
  lemma BinlogDisableIgnored(gtids: seq<string>, version: string, runs: Runs,
                             once: nat -> CallOutcome, once2: nat -> CallOutcome)
    requires forall k :: k != 2 && k != 3 ==> once2(k) == once(k)
    ensures var r := FixReplica(gtids, version, runs, once);
      var r2 := FixReplica(gtids, version, runs, once2);
      Statements(r2.steps) == Statements(r.steps) && r2.error == r.error
  {
    var r := FixReplica(gtids, version, runs, once);
    var r2 := FixReplica(gtids, version, runs, once2);
    var v := Step(Replica, SelectVersion, runs(0));
    var d := ReplicationDialect(version);
    var stop := Once(once, Replica, StopReplication(d), 1);
    assert Once(once2, Replica, StopReplication(d), 1) == stop;
    if Ok(v) && Ok(stop) {
      var prep := [v, stop, Once(once, Replica, DisableBinlog, 2), Once(once, Replica, DisableSessionBinlog, 3)];
      var prep2 := [v, stop, Once(once2, Replica, DisableBinlog, 2), Once(once2, Replica, DisableSessionBinlog, 3)];
      assert Statements(prep2) == Statements(prep);
      var c := CommitAndResume(gtids, d, runs, once);
      CommitLaterOnly(gtids, d, runs, once, once2);
      assert r == Repair(prep + c.steps, c.error) && r2 == Repair(prep2 + c.steps, c.error);
      StatementsConcat(prep, c.steps);
      StatementsConcat(prep2, c.steps);
    }
  }

  /** Committing and resuming only looks at the calls from position 4 on. */
  lemma CommitLaterOnly(gtids: seq<string>, d: Dialect, runs: Runs,
                        once: nat -> CallOutcome, once2: nat -> CallOutcome)
    requires forall k :: k >= 4 ==> once2(k) == once(k)
    ensures CommitAndResume(gtids, d, runs, once2) == CommitAndResume(gtids, d, runs, once)
  {
    var a := ApplyGtidFixes(runs, Replica, gtids, 4);
    var n := 4 + |a.steps|;
    assert once2(n) == once(n) && once2(n + 1) == once(n + 1);
    assert Resume(d, once2, n) == Resume(d, once, n);
  }

  /** The binary-log query answered and the errant text it selects parses. */
  predicate ErrantParses(errant: string, binlog: Binlog) {
    binlog.BinlogRead? && ParseSet(ErrantText(errant, binlog.reextracted)).Success?
  }

  /** The conditions under which `CheckGtidSetSubset` applies fixes. */
  predicate FixesRun(errant: string, binlog: Binlog, flags: Flags) {
    && errant != "" && ErrantParses(errant, binlog)
    && (flags.fix || flags.fixReplica)
    && ExplodeSet(ParseSet(ErrantText(errant, binlog.reextracted)).value) != []
  }

  /** The fix branch end to end: statements are sent exactly when the
      `gtid_subtract` result is non-empty, the binary-log query answered, the
      errant text parsed, fixing was asked for and the text names at least
      one transaction; all of them go to the replica under `-fix-replica`
      and to the source otherwise. When nothing is sent, the branch fails
      exactly when the binary-log query or the parse did; an empty errant
      set is never an error. */
  lemma FixBranchGating(errant: string, binlog: Binlog, version: string, flags: Flags,
                        runs: Runs, once: nat -> CallOutcome)
    ensures var r := FixBranch(errant, binlog, version, flags, runs, once);
      && (r.steps != [] <==> FixesRun(errant, binlog, flags))
      && AllTo(r.steps, if flags.fixReplica then Replica else Source)
      && (errant == "" ==> r.error.None?)
      && (r.steps == [] ==> (r.error.None? <==> errant == "" || ErrantParses(errant, binlog)))
  {
    if errant != "" && binlog.BinlogRead? {
      var t := ErrantText(errant, binlog.reextracted);
      var p := ParseErrantTransactions(t);
      if p.Success? {
        FixGatingAndTarget(p.value, version, flags, runs, once);
        assert p.value != [] <==> ExplodeSet(ParseSet(t).value) != [];
      }
    }
  }

}
