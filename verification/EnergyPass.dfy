/** One pass of the energy-saving app as a conversation with the kernel: the retries of one call, the
    writes and their read-back, the lock, the power-off (`Kernel.call`, `apply_and_verify`,
    `one_pass` and `run_once` of `examples/p4_energy_saving/energy_saving.py`). */
module EnergyPass {
  import opened Prelude
  import opened RouteWalk
  import opened EnergyPlan
  import opened ConsistentUpdate

  // ---------------------------------------------------------------- calls and replies

  datatype Call =
    | AcquireLock | RenewLock | ReleaseLock
    | WriteEntry(rewrite: Rewrite)
    | PowerOff(victim: Dpid)
    | ReadGraph | ReadUsage | ReadPower
    | ReadTable(dpid: Dpid)
    | ReadPowerState(victim: Dpid)

  predicate IsPost(c: Call) {
    c.AcquireLock? || c.RenewLock? || c.ReleaseLock? || c.WriteEntry? || c.PowerOff?
  }

  /** The header that says which process answered. */
  datatype Origin = FromKernel | FromProxy | Unmarked

  /** A reply that was not a usable 2xx, or no reply at all (`status` None). `notSent` is the kernel's
      `request_sent: false`, `refusedBySwitch` the proxy's `p4rt_error`. */
  datatype Failure = Failure(status: Option<int>, origin: Origin, notSent: bool, refusedBySwitch: bool)

  /** What a 2xx reply holds: a lease of the lock, one of the reports planning starts from, the rows of a table
      (some of which the kernel may not be able to show), a power state, or none of these. */
  datatype Body = Lease | Report | Rows(entries: seq<Entry>, unrendered: bool) | PowerState(off: bool) | Empty

  datatype Reply = Ok(body: Body) | Err(failure: Failure)

  datatype Exchange = Exchange(call: Call, reply: Reply)

  /** True only when the reply says the request changed nothing on any switch. */
  predicate NothingWritten(e: Failure) {
    if e.status.None? then false
    else
      var status := e.status.value;
      match e.origin
      case FromKernel =>
        if status == 502 || status == 504 then e.notSent else status == 404 || status == 405 || status == 501
      case FromProxy =>
        if status == 502 then e.refusedBySwitch
        else status == 400 || status == 404 || status == 409 || status == 422 || status == 501 || status == 503
      case Unmarked => 400 <= status < 500
  }

  predicate Again(c: Call, e: Failure) {
    if e.origin.FromProxy? then e.status == Some(503)
    else if e.origin.FromKernel? && e.status == Some(504) then NothingWritten(e)
    else !IsPost(c) || NothingWritten(e)
  }

  predicate Retried(c: Call, e: Failure) {
    (e.status == Some(502) || e.status == Some(503) || e.status == Some(504)) && Again(c, e)
  }

  // ---------------------------------------------------------------- what a reply says about a request

  /** What became of a request that failed. On the relayed routes the kernel refused it, did not get to send it,
      sent it and had no answer, or failed; or the proxy refused it or was busy, the switch refused it, or the
      proxy had no answer from the switch. On the other routes it was turned down, or failed. Or the connection
      broke. */
  datatype Course =
    | RefusedByKernel(why: KernelReason)
    | NotSentOn(timedOut: bool)
    | SentUnanswered(timedOut: bool)
    | KernelFailed
    | RefusedByProxy(reason: ProxyReason)
    | ProxyBusy
    | RefusedByTheSwitch
    | SwitchUnanswered
    | TurnedDown(status: int)
    | Failed(status: int)
    | Broken

  datatype KernelReason = NoSuchRoute | WrongMethod | NotP4

  datatype ProxyReason = BadRequest | NotFound | Conflict | Unprocessable | NotImplemented

  function StatusOf(r: ProxyReason): int {
    match r
    case BadRequest => 400
    case NotFound => 404
    case Conflict => 409
    case Unprocessable => 422
    case NotImplemented => 501
  }

  /** The request may have changed something on a switch, or may yet. */
  predicate MayHaveEffect(c: Course) {
    c.SentUnanswered? || c.KernelFailed? || c.SwitchUnanswered? || c.Failed? || c.Broken?
  }

  /** The reply such a request gets, as the kernel's interface documents it. */
  ghost predicate IsAnswered(c: Course, e: Failure) {
    match c
    case RefusedByKernel(why) =>
      && e.origin.FromKernel?
      && e.status == Some(match why case NoSuchRoute => 404 case WrongMethod => 405 case NotP4 => 501)
    case NotSentOn(late) => e.origin.FromKernel? && e.status == Some(if late then 504 else 502) && e.notSent
    case SentUnanswered(late) => e.origin.FromKernel? && e.status == Some(if late then 504 else 502) && !e.notSent
    case KernelFailed => e.origin.FromKernel? && e.status == Some(500)
    case RefusedByProxy(reason) => e.origin.FromProxy? && e.status == Some(StatusOf(reason))
    case ProxyBusy => e.origin.FromProxy? && e.status == Some(503)
    case RefusedByTheSwitch => e.origin.FromProxy? && e.status == Some(502) && e.refusedBySwitch
    case SwitchUnanswered => e.origin.FromProxy? && e.status == Some(502) && !e.refusedBySwitch
    case TurnedDown(status) => e.origin.Unmarked? && 400 <= status < 500 && e.status == Some(status)
    case Failed(status) => e.origin.Unmarked? && !(400 <= status < 500) && e.status == Some(status)
    case Broken => e.status.None?
  }

  /** Some course of a request explains the reply. */
  ghost predicate IsDocumented(e: Failure) {
    exists c :: IsAnswered(c, e)
  }

  lemma CourseOf(e: Failure) returns (c: Course)
    requires NothingWritten(e)
    ensures IsAnswered(c, e)
  {
    var status := e.status.value;
    c := match e.origin
         case FromKernel =>
           if status == 502 || status == 504 then NotSentOn(status == 504)
           else RefusedByKernel(if status == 404 then NoSuchRoute else if status == 405 then WrongMethod else NotP4)
         case FromProxy =>
           if status == 502 then RefusedByTheSwitch
           else if status == 503 then ProxyBusy
           else RefusedByProxy(if status == 400 then BadRequest else if status == 404 then NotFound
                               else if status == 409 then Conflict else if status == 422 then Unprocessable
                               else NotImplemented)
         case Unmarked => TurnedDown(status);
  }

  /** A reply is taken to say that nothing was written exactly when it is documented, and no course that is
      answered by it can have had an effect. */
  lemma ReplySaysNothingWritten(e: Failure)
    ensures NothingWritten(e) <==> IsDocumented(e) && forall c | IsAnswered(c, e) :: !MayHaveEffect(c)
  {
    if NothingWritten(e) {
      var c := CourseOf(e);
    } else if IsDocumented(e) {
      var c :| IsAnswered(c, e);
    }
  }

  /** A write is sent again exactly when the kernel did not get to send it, or the proxy was busy. */
  lemma WriteIsRepeated(c: Call, e: Failure)
    requires IsPost(c)
    ensures Retried(c, e) <==>
              IsAnswered(NotSentOn(true), e) || IsAnswered(NotSentOn(false), e) || IsAnswered(ProxyBusy, e)
  {
  }

  /** A read is sent again after any 502, 503 and 504, except one the proxy has given as its final answer, and one
      that may still be under way after the kernel gave up on it. */
  lemma ReadIsRepeated(c: Call, e: Failure)
    requires !IsPost(c)
    ensures Retried(c, e) <==>
              && (e.status == Some(502) || e.status == Some(503) || e.status == Some(504))
              && (e.origin.FromProxy? ==> IsAnswered(ProxyBusy, e)) && !IsAnswered(SentUnanswered(true), e)
  {
  }

  /** `sends` is one call as it went over the wire: the same request every time, repeated only after a
      retryable failure, given up only when the failure is final or the attempts are used up. */
  ghost predicate IsCallOnWire(c: Call, sends: seq<Exchange>, reply: Reply, attempts: nat) {
    && 1 <= |sends| <= attempts
    && (forall i | 0 <= i < |sends| :: sends[i].call == c)
    && (forall i | 0 <= i < |sends| - 1 :: sends[i].reply.Err? && Retried(c, sends[i].reply.failure))
    && reply == sends[|sends| - 1].reply
    && (reply.Err? && Retried(c, reply.failure) ==> |sends| == attempts)
  }

  // ---------------------------------------------------------------- what the log establishes

  /** The reply can be used for what the call was made for. */
  predicate IsUsable(c: Call, b: Body) {
    match c
    case AcquireLock => b.Lease?
    case ReadGraph => b.Report?
    case ReadUsage => b.Report?
    case ReadPower => b.Report?
    case ReadTable(_) => b.Rows?
    case ReadPowerState(_) => b.PowerState?
    case _ => true
  }

  /** What the conversation so far has established. `shown` holds, per switch, the last rows read back after
      the last write to it; `off` says that the power-off was answered, `over` that a reply has come after
      which nothing but the release may be sent. */
  datatype Watch = Watch(locked: bool, leased: bool, renewals: nat, renewedSinceWrite: bool, answered: seq<Rewrite>,
                         shown: map<Dpid, seq<Entry>>, off: bool, over: bool)

  /** Before the lock is first renewed the pass is planning: then a table must be shown in full. */
  predicate IsBadRead(renewals: nat, x: Exchange) {
    && !x.call.AcquireLock? && x.reply.Ok?
    && (!IsUsable(x.call, x.reply.body) || (x.call.ReadTable? && renewals == 0 && x.reply.body.unrendered))
  }

  /** A write or a power-off that failed without proof that nothing happened. */
  predicate IsInDoubt(x: Exchange) {
    (x.call.WriteEntry? || x.call.PowerOff?) && x.reply.Err? && !NothingWritten(x.reply.failure)
  }

  ghost function Observe(w: Watch, x: Exchange): Watch {
    var w' := w.(over := w.over || IsBadRead(w.renewals, x) || IsInDoubt(x));
    match x.call
    case AcquireLock => if x.reply.Ok? then Watch(true, x.reply.body.Lease?, 0, false, [], map[], false, false) else w
    case RenewLock => if x.reply.Ok? then w'.(renewals := w.renewals + 1, renewedSinceWrite := true) else w'
    case ReleaseLock => w'.(locked := false)
    case WriteEntry(r) =>
      if x.reply.Ok?
      then w'.(answered := w.answered + [r], renewedSinceWrite := false, shown := w.shown - {r.dpid})
      else w'
    case PowerOff(_) => if x.reply.Ok? then w'.(off := true) else w'
    case ReadTable(d) =>
      if x.reply.Ok? && x.reply.body.Rows? && !x.reply.body.unrendered
      then w'.(shown := w.shown[d := x.reply.body.entries])
      else w'
    case _ => w'
  }

  const Nothing := Watch(false, false, 0, false, [], map[], false, false)

  ghost predicate IsStep(log: seq<Exchange>, ws: seq<Watch>, k: nat)
    requires k < |log| && |ws| == |log| + 1
  {
    ws[k + 1] == Observe(ws[k], log[k])
  }

  /** `ws[k]` is what the first `k` exchanges establish. */
  ghost predicate IsRecord(log: seq<Exchange>, ws: seq<Watch>) {
    && |ws| == |log| + 1 && ws[0] == Nothing
    && forall k | 0 <= k < |log| :: IsStep(log, ws, k)
  }

  function FirstWithKey(rows: seq<Entry>, e: Entry): Option<Entry> {
    if rows == [] then None
    else if SameKey(rows[0], e) then Some(rows[0])
    else FirstWithKey(rows[1..], e)
  }

  /** The rows read back hold the entry as it was written. */
  predicate Confirms(rows: seq<Entry>, r: Rewrite) {
    var found := FirstWithKey(rows, r.now);
    found.Some? && found.value.port == r.now.port
  }

  /** The rows confirm a write exactly when the first with the same match and priority has the port written. */
  lemma {:induction false} ConfirmsMeans(rows: seq<Entry>, r: Rewrite)
    ensures Confirms(rows, r) <==>
              exists i :: && 0 <= i < |rows| && rows[i] == r.now.(port := rows[i].port) && rows[i].port == r.now.port
                          && forall k | 0 <= k < i :: rows[k] != r.now.(port := rows[k].port)
  {
    if rows != [] {
      var rest := rows[1..];
      ConfirmsMeans(rest, r);
      assert forall k | 0 < k < |rows| :: rows[k] == rest[k - 1];
      if SameKey(rows[0], r.now) {
        assert rows[0] == r.now.(port := rows[0].port);
      } else if Confirms(rest, r) {
        var i :| && 0 <= i < |rest| && rest[i] == r.now.(port := rest[i].port) && rest[i].port == r.now.port
                 && forall k | 0 <= k < i :: rest[k] != r.now.(port := rest[k].port);
        assert rows[i + 1] == rest[i];
      } else if i :| && 0 <= i < |rows| && rows[i] == r.now.(port := rows[i].port) && rows[i].port == r.now.port
                     && forall k | 0 <= k < i :: rows[k] != r.now.(port := rows[k].port) {
        assert i > 0 && rest[i - 1] == rows[i];
      }
    }
  }

  ghost predicate MayPowerOff(w: Watch, plans: seq<Rewrite>) {
    HasMoved(w, plans) && !w.off
  }

  /** Every planned write was answered, in order, and its switch has since shown it; the lock was
      renewed before the first write and again after the last. */
  ghost predicate HasMoved(w: Watch, plans: seq<Rewrite>) {
    && w.locked && w.renewals >= 2 && w.renewedSinceWrite
    && w.answered == plans
    && forall r | r in plans :: r.dpid in w.shown && Confirms(w.shown[r.dpid], r)
  }

  /** The next write of the plan, under a renewed lock. */
  ghost predicate MayWrite(w: Watch, plans: seq<Rewrite>, r: Rewrite) {
    && w.locked && w.renewals >= 1
    && |w.answered| < |plans| && w.answered == plans[..|w.answered|] && plans[|w.answered|] == r
  }

  /** Nothing but the release is sent once the pass is over, and nothing about the lock without its lease. */
  ghost predicate MaySend(w: Watch, c: Call, victim: Dpid, plans: seq<Rewrite>) {
    && (w.over ==> c.ReleaseLock? || c.AcquireLock?)
    && match c
       case PowerOff(v) => v == victim && MayPowerOff(w, plans)
       case WriteEntry(r) => MayWrite(w, plans, r)
       case RenewLock => w.leased
       case ReleaseLock => w.leased
       case _ => true
  }

  /** The lock is asked for first, and only until it is granted. */
  ghost predicate AcquiresFirst(log: seq<Exchange>, n: nat, k: nat, c: Call)
    requires k <= |log|
  {
    c.AcquireLock? ==> forall i | n <= i < k :: log[i].call.AcquireLock? && log[i].reply.Err?
  }

  ghost predicate IsLicensed(log: seq<Exchange>, ws: seq<Watch>, n: nat, k: nat, victim: Dpid, plans: seq<Rewrite>)
    requires k < |log| && |ws| == |log| + 1
  {
    MaySend(ws[k], log[k].call, victim, plans) && AcquiresFirst(log, n, k, log[k].call)
  }

  /** From exchange `n` on, nothing was sent without its licence. */
  ghost predicate IsSafeFrom(log: seq<Exchange>, ws: seq<Watch>, n: nat, victim: Dpid, plans: seq<Rewrite>) {
    IsRecord(log, ws) && forall k | n <= k < |log| :: IsLicensed(log, ws, n, k, victim, plans)
  }

  lemma SafeStep(log: seq<Exchange>, ws: seq<Watch>, n: nat, x: Exchange, victim: Dpid, plans: seq<Rewrite>)
    requires IsSafeFrom(log, ws, n, victim, plans)
    requires MaySend(ws[|log|], x.call, victim, plans) && AcquiresFirst(log, n, |log|, x.call)
    ensures IsSafeFrom(log + [x], ws + [Observe(ws[|log|], x)], n, victim, plans)
  {
    var log', ws' := log + [x], ws + [Observe(ws[|log|], x)];
    forall k | 0 <= k < |log'| ensures IsStep(log', ws', k) {
      assert k < |log| ==> IsStep(log, ws, k);
    }
    forall k | n <= k < |log'| ensures IsLicensed(log', ws', n, k, victim, plans) {
      assert k < |log| ==> IsLicensed(log, ws, n, k, victim, plans);
    }
  }

  // ---------------------------------------------------------------- what a safe log never shows

  /** While the lock is not acquired anew, answers stay answered, and a pass that is over stays over. */
  ghost predicate Continues(w: Watch, w': Watch) {
    && |w.answered| <= |w'.answered| && (w.off ==> w'.off) && (w.over ==> w'.over)
  }

  /** What one exchange adds does not take back what was there. */
  lemma StepContinues(w: Watch, x: Exchange)
    requires !x.call.AcquireLock?
    ensures Continues(w, Observe(w, x))
  {
  }

  lemma {:induction false} WatchContinues(log: seq<Exchange>, ws: seq<Watch>, j: nat, k: nat)
    requires IsRecord(log, ws) && j <= k <= |log| && forall i | j <= i < k :: !log[i].call.AcquireLock?
    ensures Continues(ws[j], ws[k])
    decreases k
  {
    if j < k {
      WatchContinues(log, ws, j, k - 1);
      StepContinues(ws[k - 1], log[k - 1]);
      assert IsStep(log, ws, k - 1);
    }
  }

  lemma NoAcquireBetween(log: seq<Exchange>, ws: seq<Watch>, n: nat, victim: Dpid, plans: seq<Rewrite>, j: nat, k: nat)
    requires IsSafeFrom(log, ws, n, victim, plans) && n <= j <= k <= |log| && j < |log|
    requires !log[j].call.AcquireLock? || log[j].reply.Ok?
    ensures forall i | j < i < k :: !log[i].call.AcquireLock?
  {
    forall i | j < i < k ensures !log[i].call.AcquireLock? {
      assert IsLicensed(log, ws, n, i, victim, plans);
    }
  }

  /** A lock granted without a lease: nothing is posted after it. */
  lemma {:induction false} NothingPostedWithoutLease(log: seq<Exchange>, ws: seq<Watch>, n: nat, victim: Dpid,
                                                     plans: seq<Rewrite>, a: nat, k: nat)
    requires IsSafeFrom(log, ws, n, victim, plans) && n <= a < k <= |log|
    requires log[a].call.AcquireLock? && log[a].reply.Ok? && !log[a].reply.body.Lease?
    ensures !ws[k].leased && ws[k].renewals == 0
    ensures k < |log| ==> !IsPost(log[k].call)
    decreases k
  {
    assert IsStep(log, ws, k - 1);
    if a < k - 1 {
      NothingPostedWithoutLease(log, ws, n, victim, plans, a, k - 1);
    }
    if k < |log| {
      NoAcquireBetween(log, ws, n, victim, plans, a, k + 1);
      assert IsLicensed(log, ws, n, k, victim, plans);
    }
  }

  /** After a reply that could not be used, or a write or power-off in doubt, nothing but the release is sent. */
  lemma NothingFollowsABadReply(log: seq<Exchange>, ws: seq<Watch>, n: nat, victim: Dpid, plans: seq<Rewrite>, j: nat,
                                k: nat)
    requires IsSafeFrom(log, ws, n, victim, plans) && n <= j < k < |log|
    requires IsBadRead(ws[j].renewals, log[j]) || IsInDoubt(log[j])
    ensures log[k].call.ReleaseLock?
  {
    NoAcquireBetween(log, ws, n, victim, plans, j, k + 1);
    assert IsStep(log, ws, j);
    WatchContinues(log, ws, j + 1, k);
    assert IsLicensed(log, ws, n, k, victim, plans);
  }

  /** Of the sends of one planned write, or of the power-off, every one but the last had a reply that proves
      nothing was done: the request takes effect at most once. */
  lemma OnlyLastSendTakesEffect(log: seq<Exchange>, ws: seq<Watch>, n: nat, victim: Dpid, plans: seq<Rewrite>, j: nat,
                                k: nat)
    requires IsSafeFrom(log, ws, n, victim, plans) && n <= j < k < |log|
    requires log[j].call == log[k].call && (log[j].call.WriteEntry? || log[j].call.PowerOff?)
    requires forall a, b | 0 <= a < b < |plans| :: plans[a] != plans[b]
    ensures log[j].reply.Err? && NothingWritten(log[j].reply.failure)
  {
    if IsInDoubt(log[j]) {
      NothingFollowsABadReply(log, ws, n, victim, plans, j, k);
      assert false;
    }
    assert IsLicensed(log, ws, n, j, victim, plans) && IsLicensed(log, ws, n, k, victim, plans);
    NoAcquireBetween(log, ws, n, victim, plans, j, k + 1);
    assert IsStep(log, ws, j);
    WatchContinues(log, ws, j + 1, k);
  }

  // ---------------------------------------------------------------- the client

  datatype Applied = AllConfirmed | WriteFailed(written: nat, failure: Failure) | NotConfirmed | Crashed

  /** What planning came to: no switch, or a switch and its rewrites. */
  datatype Choice = NoSwitch | Chosen(victim: Dpid, plans: seq<Rewrite>)

  datatype Reason =
    | TooBusy | NothingToTurnOff | DryRun
    | NotRenewedNothingWritten | WriteStopped(mayHaveLanded: bool, before: nat)
    | ReadBackDiffers | NotRenewedRoutesMoved
    | PowerOffFailed(mayHaveTaken: bool) | Ended

  datatype PassResult = PassResult(victim: Option<Dpid>, rewrites: seq<Rewrite>, poweredOff: bool, reason: Reason)

  datatype Outcome = Raised | Returned(result: PassResult)

  class Client {
    /** The kernel's replies, one per request sent: any sequence at all. */
    const world: nat -> Reply
    const attempts: nat
    var log: seq<Exchange>
    ghost var watches: seq<Watch>

    /** What the conversation so far has established. */
    ghost function Now(): Watch
      reads this
      requires watches != []
    {
      watches[|watches| - 1]
    }

    ghost predicate IsSafe(from: nat, victim: Dpid, plans: seq<Rewrite>)
      reads this
    {
      IsSafeFrom(log, watches, from, victim, plans)
    }

    constructor (world: nat -> Reply, attempts: nat)
      requires attempts > 0
      ensures this.world == world && this.attempts == attempts && log == [] && IsRecord(log, watches)
    {
      this.world, this.attempts, this.log, this.watches := world, attempts, [], [Nothing];
    }

    method Request(c: Call, ghost from: nat, ghost victim: Dpid, ghost plans: seq<Rewrite>) returns (r: Reply)
      requires IsSafe(from, victim, plans) && MaySend(Now(), c, victim, plans) && AcquiresFirst(log, from, |log|, c)
      modifies this
      ensures r == world(|old(log)|) && IsSafe(from, victim, plans)
      ensures log == old(log) + [Exchange(c, r)] && watches == old(watches) + [Observe(old(Now()), Exchange(c, r))]
    {
      r := world(|log|);
      SafeStep(log, watches, from, Exchange(c, r), victim, plans);
      watches := watches + [Observe(Now(), Exchange(c, r))];
      log := log + [Exchange(c, r)];
    }

    /** `Kernel.call`. A request that writes is repeated only after a reply that proves nothing was
        written, so at most one send of it, the last, can have taken effect. `victim`, `plans` and
        `from` only say what the caller may send. */
    method Send(c: Call, ghost from: nat, ghost victim: Dpid, ghost plans: seq<Rewrite>) returns (r: Reply)
      requires attempts > 0
      requires IsSafe(from, victim, plans) && MaySend(Now(), c, victim, plans) && AcquiresFirst(log, from, |log|, c)
      modifies this
      ensures old(log) < log && old(watches) <= watches
      ensures IsCallOnWire(c, log[|old(log)|..], r, attempts)
      ensures IsPost(c) ==>
                forall i | |old(log)| <= i < |log| - 1 :: log[i].reply.Err? && NothingWritten(log[i].reply.failure)
      ensures IsSafe(from, victim, plans)
      ensures log[|log| - 1] == Exchange(c, r)
      ensures Now() == Observe(old(Now()), Exchange(c, r))
    {
      ghost var start := log;
      var attempt := 0;
      while true
        invariant 0 <= attempt < attempts
        invariant |log| == |start| + attempt && start <= log && old(watches) <= watches
        invariant forall i | |start| <= i < |log| ::
                    log[i].call == c && log[i].reply.Err? && Retried(c, log[i].reply.failure)
        invariant IsSafe(from, victim, plans) && AcquiresFirst(log, from, |log|, c)
        invariant Now() == old(Now()) || (c.ReleaseLock? && Now() == old(Now()).(locked := false))
        decreases attempts - attempt
      {
        r := Request(c, from, victim, plans);
        if r.Ok? || !Retried(c, r.failure) || attempt == attempts - 1 {
          return;
        }
        attempt := attempt + 1;
      }
    }

    /** Reads a table back and compares it with what was written there. */
    method VerifyTable(d: Dpid, ghost from: nat, ghost victim: Dpid, plans: seq<Rewrite>) returns (res: Applied)
      requires attempts > 0 && IsSafe(from, victim, plans) && InWriting(Now())
      modifies this
      ensures old(log) <= log && IsSafe(from, victim, plans)
      ensures !res.WriteFailed? && log != []
      ensures res.Crashed? ==> IsCause(old(Now()).renewals, log[|log| - 1])
      ensures res.NotConfirmed? ==> DoesNotConfirm(log[|log| - 1], plans)
      ensures var w, w' := old(Now()), Now();
              && w' == w.(shown := w'.shown, over := res.Crashed?)
              && (forall x | x in w.shown && x != d :: x in w'.shown && w'.shown[x] == w.shown[x])
              && (res.AllConfirmed? ==>
                    && d in w'.shown
                    && forall r | r in plans && r.dpid == d :: Confirms(w'.shown[d], r))
    {
      var reply := Send(ReadTable(d), from, victim, plans);
      if reply.Err? {
        return NotConfirmed;
      }
      if !reply.body.Rows? {
        return Crashed;
      }
      if reply.body.unrendered {
        return NotConfirmed;
      }
      for i := 0 to |plans|
        invariant forall k | 0 <= k < i && plans[k].dpid == d :: Confirms(reply.body.entries, plans[k])
      {
        if plans[i].dpid == d && !Confirms(reply.body.entries, plans[i]) {
          assert plans[i] in plans;
          return NotConfirmed;
        }
      }
      return AllConfirmed;
    }

    /** Reads back every table that was written to. */
    method VerifyTables(ghost from: nat, ghost victim: Dpid, plans: seq<Rewrite>) returns (res: Applied)
      requires attempts > 0 && IsSafe(from, victim, plans) && InWriting(Now()) && Now().answered == plans
      modifies this
      ensures old(log) <= log && IsSafe(from, victim, plans) && !res.WriteFailed?
      ensures var w, w' := old(Now()), Now();
              && w' == w.(shown := w'.shown, over := res.Crashed?)
              && (res.AllConfirmed? ==> forall r | r in plans :: r.dpid in w'.shown && Confirms(w'.shown[r.dpid], r))
      ensures !res.AllConfirmed? ==> log != [] && IsApplied(res, plans, Now(), log[|log| - 1])
    {
      ghost var start := log;
      var todo := set i | 0 <= i < |plans| :: plans[i].dpid;
      while todo != {}
        invariant start <= log && IsSafe(from, victim, plans)
        invariant var w := Now(); w == old(Now()).(shown := w.shown)
        invariant forall r | r in plans && r.dpid !in todo ::
                    r.dpid in Now().shown && Confirms(Now().shown[r.dpid], r)
        decreases todo
      {
        var d :| d in todo;
        todo := todo - {d};
        res := VerifyTable(d, from, victim, plans);
        if !res.AllConfirmed? {
          return;
        }
      }
      return AllConfirmed;
    }

    method WriteOne(ghost from: nat, ghost victim: Dpid, plans: seq<Rewrite>, i: nat) returns (reply: Reply)
      requires attempts > 0 && IsSafe(from, victim, plans) && i < |plans|
      requires var w := Now(); InWriting(w) && w.answered == plans[..i]
      modifies this
      ensures old(log) < log && IsSafe(from, victim, plans) && log[|log| - 1] == Exchange(WriteEntry(plans[i]), reply)
      ensures var w, w' := old(Now()), Now();
              if reply.Ok?
              then w' == w.(answered := w.answered + [plans[i]], renewedSinceWrite := false, shown := w'.shown)
              else w' == w.(over := w'.over)
    {
      reply := Send(WriteEntry(plans[i]), from, victim, plans);
    }

    /** The writes, in plan order, up to the first that fails. */
    method WriteEntries(ghost from: nat, ghost victim: Dpid, plans: seq<Rewrite>)
      returns (written: nat, failure: Option<Failure>)
      requires attempts > 0 && IsSafe(from, victim, plans)
      requires var w := Now(); InWriting(w) && w.answered == []
      modifies this
      ensures old(log) <= log && IsSafe(from, victim, plans)
      ensures var w, w' := old(Now()), Now();
              && w'.locked && w'.leased && !w'.off && w'.renewals == w.renewals
              && written <= |plans| && w'.answered == plans[..written]
              && (failure.None? ==> !w'.over && written == |plans|)
      ensures failure.Some? ==>
                && written < |plans| && log != []
                && log[|log| - 1] == Exchange(WriteEntry(plans[written]), Err(failure.value))
    {
      ghost var start := log;
      for i := 0 to |plans|
        invariant start <= log && IsSafe(from, victim, plans)
        invariant var w := Now(); InWriting(w) && w.renewals == old(Now()).renewals && w.answered == plans[..i]
      {
        var reply := WriteOne(from, victim, plans, i);
        if reply.Err? {
          return i, Some(reply.failure);
        }
        assert plans[..i + 1] == plans[..i] + [plans[i]];
      }
      return |plans|, None;
    }

    /** `apply_and_verify`: every write, then every table read back. */
    method ApplyAndVerify(ghost from: nat, ghost victim: Dpid, plans: seq<Rewrite>) returns (res: Applied)
      requires attempts > 0 && IsSafe(from, victim, plans)
      requires var w := Now(); InWriting(w) && w.answered == []
      modifies this
      ensures old(log) <= log && IsSafe(from, victim, plans)
      ensures var w, w' := old(Now()), Now();
              && w'.locked && w'.leased && !w'.off && w'.renewals == w.renewals
              && (res.AllConfirmed? ==>
                    && !w'.over && w'.answered == plans
                    && forall r | r in plans :: r.dpid in w'.shown && Confirms(w'.shown[r.dpid], r))
      ensures !res.AllConfirmed? ==> log != [] && IsApplied(res, plans, Now(), log[|log| - 1])
    {
      var n, failure := WriteEntries(from, victim, plans);
      if failure.Some? {
        return WriteFailed(n, failure.value);
      }
      assert plans[..|plans|] == plans;
      res := VerifyTables(from, victim, plans);
    }

    /** The reads of the planning phase; any of them may end the pass, by failing or by what it shows. */
    method ReadAll(calls: seq<Call>, ghost from: nat, ghost victim: Dpid, ghost plans: seq<Rewrite>) returns (ok: bool)
      requires attempts > 0 && IsSafe(from, victim, plans) && InPlanning(Now())
      requires forall c | c in calls :: !IsPost(c)
      modifies this
      ensures old(log) <= log && IsSafe(from, victim, plans)
      ensures var w, w' := old(Now()), Now(); w' == w.(shown := w'.shown, over := w'.over) && (ok ==> !w'.over)
      ensures !ok ==> log != [] && IsCause(0, log[|log| - 1])
      ensures ChangesNothing(log, |old(log)|)
      ensures ok ==> forall c | c in calls :: HasRead(log, |old(log)|, c)
    {
      ghost var start := log;
      for i := 0 to |calls|
        invariant start <= log && IsSafe(from, victim, plans)
        invariant var w, w' := old(Now()), Now(); w' == w.(shown := w'.shown)
        invariant ChangesNothing(log, |start|) && forall k | 0 <= k < i :: HasRead(log, |start|, calls[k])
      {
        assert calls[i] in calls;
        ghost var sofar := log;
        var reply := Send(calls[i], from, victim, plans);
        ReadOneMore(sofar, log, |start|, calls, i, attempts, reply);
        if reply.Err? || !IsUsable(calls[i], reply.body) || (calls[i].ReadTable? && reply.body.unrendered) {
          return false;
        }
      }
      return true;
    }

    /** `one_pass`, inside the lock. `busy` is the verdict on the average usage, `consulted` the tables
        planning reads, `choice` what it comes to; without a lease the lock cannot be renewed. */
    method OnePass(busy: bool, consulted: seq<Dpid>, choice: Choice, dryRun: bool, leased: bool, ghost from: nat)
      returns (out: Outcome)
      requires attempts > 0 && log != [] && IsSafe(from, VictimOf(choice), PlansOf(choice))
      requires var w := Now(); InPlanning(w) && w.leased == leased && w.answered == []
      modifies this
      ensures old(log) <= log && IsSafe(from, VictimOf(choice), PlansOf(choice)) && Now().leased == leased
      ensures TurnedOff(out, choice, log, |old(log)|)
      ensures log != [] && Explains(out, busy, choice, dryRun, Now(), log[|log| - 1])
      ensures busy || dryRun ==> ChangesNothing(log, |old(log)|)
      ensures out.Returned? ==> HasReadAll(log, |old(log)|, busy, consulted)
    {
      var early := Plan(busy, consulted, choice, dryRun, from);
      if early.Some? {
        return early.value;
      }
      var result := PassResult(Some(choice.victim), choice.plans, false, DryRun);
      ghost var n, sofar := |log|, log;
      out := WriteAndTurnOff(choice.victim, choice.plans, result, leased, from);
      TurnedOffSince(out, choice, log, |old(log)|, n);
      ReadStays(sofar, log, |old(log)|, |old(log)|, busy, consulted);
    }

    /** `one_pass` up to the first renewal of the lock: the outcome, if the pass ends there. */
    method Plan(busy: bool, consulted: seq<Dpid>, choice: Choice, dryRun: bool, ghost from: nat)
      returns (early: Option<Outcome>)
      requires attempts > 0 && log != [] && IsSafe(from, VictimOf(choice), PlansOf(choice))
      requires InPlanning(Now()) && Now().answered == []
      modifies this
      ensures old(log) <= log && log != [] && IsSafe(from, VictimOf(choice), PlansOf(choice))
      ensures var w, w' := old(Now()), Now(); w' == w.(shown := w'.shown, over := w'.over)
      ensures early.None? ==> choice.Chosen? && !busy && !dryRun && InPlanning(Now())
      ensures ChangesNothing(log, |old(log)|)
      ensures early == Some(Raised) || HasReadAll(log, |old(log)|, busy, consulted)
      ensures early.Some? ==>
                && (early.value.Returned? ==> !early.value.result.poweredOff)
                && Explains(early.value, busy, choice, dryRun, Now(), log[|log| - 1])
    {
      ghost var victim, plans := VictimOf(choice), PlansOf(choice);
      var ok := ReadAll([ReadGraph, ReadUsage, ReadPower], from, victim, plans);
      if !ok {
        return Some(Raised);
      }
      if busy {
        return Some(Returned(PassResult(None, [], false, TooBusy)));
      }
      ghost var sofar := log;
      var calls := seq(|consulted|, i requires 0 <= i < |consulted| => ReadTable(consulted[i]));
      ok := ReadAll(calls, from, victim, plans);
      ghost var n := |old(log)|;
      assert ChangesNothing(log, n) by {
        assert forall k | n <= k < |sofar| :: log[k] == sofar[k];
      }
      if !ok {
        return Some(Raised);
      }
      TablesRead(sofar, log, n, consulted, calls);
      if choice.NoSwitch? {
        return Some(Returned(PassResult(None, [], false, NothingToTurnOff)));
      }
      if dryRun {
        return Some(Returned(PassResult(Some(choice.victim), choice.plans, false, DryRun)));
      }
      return None;
    }

    /** `one_pass` from the first renewal of the lock on. */
    method WriteAndTurnOff(victim: Dpid, plans: seq<Rewrite>, result: PassResult, leased: bool, ghost from: nat)
      returns (out: Outcome)
      requires attempts > 0 && log != [] && IsSafe(from, victim, plans)
      requires result.victim == Some(victim) && result.rewrites == plans && !result.poweredOff
      requires var w := Now(); InPlanning(w) && w.leased == leased && w.answered == []
      modifies this
      ensures old(log) <= log && IsSafe(from, victim, plans) && Now().leased == leased
      ensures TurnedOff(out, Chosen(victim, plans), log, |old(log)|)
      ensures log != [] && Explains(out, false, Chosen(victim, plans), false, Now(), log[|log| - 1])
    {
      if !leased {
        return Raised;
      }
      var early := Write(victim, plans, result, from);
      if early.Some? {
        return early.value;
      }
      ghost var n := |log|;
      out := TurnOff(victim, plans, result, from);
      TurnedOffSince(out, Chosen(victim, plans), log, |old(log)|, n);
    }

    method Renew(ghost from: nat, ghost victim: Dpid, ghost plans: seq<Rewrite>) returns (ok: bool)
      requires attempts > 0 && IsSafe(from, victim, plans) && Now().leased && !Now().over
      modifies this
      ensures old(log) < log && IsSafe(from, victim, plans)
      ensures var w := old(Now());
              Now() == (if ok then w.(renewals := w.renewals + 1, renewedSinceWrite := true) else w)
      ensures !ok ==> log[|log| - 1].call.RenewLock? && log[|log| - 1].reply.Err?
    {
      var reply := Send(RenewLock, from, victim, plans);
      ok := reply.Ok?;
    }

    method Release(ghost from: nat, ghost victim: Dpid, ghost plans: seq<Rewrite>) returns (ok: bool)
      requires attempts > 0 && IsSafe(from, victim, plans) && Now().leased
      modifies this
      ensures old(log) < log && old(watches) <= watches && IsSafe(from, victim, plans)
      ensures log[|log| - 1].call.ReleaseLock? && log[|log| - 1].reply.Ok? == ok
      ensures forall k | |old(log)| <= k < |log| :: log[k].call.ReleaseLock?
    {
      ghost var n := |log|;
      var reply := Send(ReleaseLock, from, victim, plans);
      ok := reply.Ok?;
      assert forall k | n <= k < |log| :: log[k] == log[n..][k - n];
    }

    /** The writes, under a lock renewed just before: the outcome, if the pass ends there. */
    method Write(victim: Dpid, plans: seq<Rewrite>, result: PassResult, ghost from: nat)
      returns (early: Option<Outcome>)
      requires attempts > 0 && log != [] && IsSafe(from, victim, plans)
      requires result.victim == Some(victim) && result.rewrites == plans && !result.poweredOff
      requires var w := Now(); InPlanning(w) && w.leased && w.answered == []
      modifies this
      ensures old(log) <= log && log != [] && IsSafe(from, victim, plans) && Now().leased
      ensures early.None? ==>
                var w := Now();
                && InWriting(w) && w.answered == plans
                && forall r | r in plans :: r.dpid in w.shown && Confirms(w.shown[r.dpid], r)
      ensures early.Some? ==>
                && (early.value.Returned? ==> !early.value.result.poweredOff)
                && Explains(early.value, false, Chosen(victim, plans), false, Now(), log[|log| - 1])
    {
      var renewed := Renew(from, victim, plans);
      if !renewed {
        return Some(Returned(result.(reason := NotRenewedNothingWritten)));
      }
      var applied := ApplyAndVerify(from, victim, plans);
      early := OutcomeOf(applied, result);
      if early.Some? {
        AppliedExplains(applied, plans, result, Now(), log[|log| - 1]);
      }
    }

    /** The last part of `one_pass`: renew the lock again, turn the switch off, read its state. */
    method TurnOff(victim: Dpid, plans: seq<Rewrite>, result: PassResult, ghost from: nat)
      returns (out: Outcome)
      requires attempts > 0 && IsSafe(from, victim, plans)
      requires result.victim == Some(victim) && result.rewrites == plans && !result.poweredOff
      requires var w := Now();
               && InWriting(w) && w.answered == plans
               && forall r | r in plans :: r.dpid in w.shown && Confirms(w.shown[r.dpid], r)
      modifies this
      ensures old(log) <= log && IsSafe(from, victim, plans) && Now().leased
      ensures TurnedOff(out, Chosen(victim, plans), log, |old(log)|)
      ensures log != [] && Explains(out, false, Chosen(victim, plans), false, Now(), log[|log| - 1])
    {
      var renewed := Renew(from, victim, plans);
      if !renewed {
        return Returned(result.(reason := NotRenewedRoutesMoved));
      }
      ghost var n := |log|;
      out := PowerOffAndLook(victim, plans, result, from);
      TurnedOffSince(out, Chosen(victim, plans), log, |old(log)|, n);
    }

    method PowerOffAndLook(victim: Dpid, plans: seq<Rewrite>, result: PassResult, ghost from: nat)
      returns (out: Outcome)
      requires attempts > 0 && IsSafe(from, victim, plans) && InWriting(Now()) && MayPowerOff(Now(), plans)
      requires result.victim == Some(victim) && result.rewrites == plans && !result.poweredOff
      modifies this
      ensures old(log) <= log && IsSafe(from, victim, plans) && Now().leased
      ensures TurnedOff(out, Chosen(victim, plans), log, |old(log)|)
      ensures log != [] && Explains(out, false, Chosen(victim, plans), false, Now(), log[|log| - 1])
    {
      var off := SendPowerOff(victim, plans, from);
      if off.Err? {
        return Returned(result.(reason := PowerOffFailed(!NothingWritten(off.failure))));
      }
      ghost var k := |log| - 1;
      var state := Look(victim, plans, from);
      assert log[k].call == PowerOff(victim) && log[k].reply.Ok?;
      if state.Err? || !state.body.PowerState? {
        return Raised;
      }
      return Returned(result.(poweredOff := state.body.off, reason := Ended));
    }

    /** The power state is read. */
    method Look(victim: Dpid, ghost plans: seq<Rewrite>, ghost from: nat) returns (reply: Reply)
      requires attempts > 0 && IsSafe(from, victim, plans) && !Now().over
      modifies this
      ensures old(log) < log && IsSafe(from, victim, plans) && log[|log| - 1] == Exchange(ReadPowerState(victim), reply)
      ensures var w, w' := old(Now()), Now(); w' == w.(over := w'.over)
    {
      reply := Send(ReadPowerState(victim), from, victim, plans);
    }

    method SendPowerOff(victim: Dpid, ghost plans: seq<Rewrite>, ghost from: nat) returns (reply: Reply)
      requires attempts > 0 && IsSafe(from, victim, plans) && InWriting(Now()) && MayPowerOff(Now(), plans)
      modifies this
      ensures old(log) < log && IsSafe(from, victim, plans) && log[|log| - 1] == Exchange(PowerOff(victim), reply)
      ensures var w, w' := old(Now()), Now();
              w' == (if reply.Ok? then w.(off := true) else w.(over := w'.over))
    {
      reply := Send(PowerOff(victim), from, victim, plans);
    }

    /** The pass, told from where the lock was asked for. */
    method InLock(busy: bool, consulted: seq<Dpid>, choice: Choice, dryRun: bool, leased: bool, ghost n: nat)
      returns (out: Outcome)
      requires attempts > 0 && IsSafe(n, VictimOf(choice), PlansOf(choice)) && IsAcquired(log, n, leased)
      requires ChangesNothing(log, n)
      requires var w := Now(); InPlanning(w) && w.leased == leased && w.answered == []
      modifies this
      ensures old(log) <= log && IsSafe(n, VictimOf(choice), PlansOf(choice)) && Now().leased == leased
      ensures TurnedOff(out, choice, log, n) && Explains(out, busy, choice, dryRun, Now(), log[|log| - 1])
      ensures out.Raised? ==> exists k | n <= k < |log| :: IsCauseAt(log, watches, k)
      ensures busy || dryRun ==> ChangesNothing(log, n)
      ensures out.Returned? ==> HasReadAll(log, n, busy, consulted)
    {
      ghost var locked := log;
      out := OnePass(busy, consulted, choice, dryRun, leased, n);
      PassReads(locked, log, n, busy, consulted, dryRun, out);
      TurnedOffSince(out, choice, log, n, |locked|);
      CauseIsThere(locked, log, watches, n, out, busy, choice, dryRun);
    }

    /** The lock is given back, whatever the pass came to; if it returned and that fails, it raises. */
    method GiveBack(pass: Outcome, ghost busy: bool, ghost consulted: seq<Dpid>, ghost choice: Choice,
                    ghost dryRun: bool, ghost n: nat, ghost locked: seq<Exchange>)
      returns (out: Outcome)
      requires attempts > 0 && IsSafe(n, VictimOf(choice), PlansOf(choice)) && Now().leased
      requires IsAcquired(locked, n, true) && locked <= log
      requires TurnedOff(pass, choice, log, n) && Explains(pass, busy, choice, dryRun, Now(), log[|log| - 1])
      requires pass.Raised? ==> exists k | n <= k < |log| :: IsCauseAt(log, watches, k)
      requires busy || dryRun ==> ChangesNothing(log, n)
      requires pass.Returned? ==> HasReadAll(log, n, busy, consulted)
      modifies this
      ensures old(log) < log && IsSafe(n, VictimOf(choice), PlansOf(choice)) && IsLockedPass(log, n, out)
      ensures IsExplained(log, watches, n, out, busy, choice, dryRun)
      ensures busy || dryRun ==> ChangesNothing(log, n)
      ensures out.Returned? ==> HasReadAll(log, n, busy, consulted)
    {
      ghost var victim, plans := VictimOf(choice), PlansOf(choice);
      ghost var sofar, ws := log, watches;
      out := pass;
      var released := Release(n, victim, plans);
      PassReads(sofar, log, n, busy, consulted, dryRun, Raised);
      if out.Returned? {
        ReadStays(sofar, log, n, n, busy, consulted);
      }
      CauseStays(sofar, ws, log, watches, n, out);
      if out.Returned? && !released {
        out := Raised;
      }
      PassReleased(locked, log, watches, n, victim, plans, out);
      PassExplained(sofar, log, watches, n, out, busy, choice, dryRun);
    }

    /** `run_once`: the lock around the pass. */
    method RunOnce(busy: bool, consulted: seq<Dpid>, choice: Choice, dryRun: bool) returns (out: Outcome)
      requires attempts > 0 && IsRecord(log, watches)
      modifies this
      ensures old(log) < log && IsSafe(|old(log)|, VictimOf(choice), PlansOf(choice))
      ensures IsLockedPass(log, |old(log)|, out)
      ensures IsExplained(log, watches, |old(log)|, out, busy, choice, dryRun)
      ensures busy || dryRun ==> ChangesNothing(log, |old(log)|)
      ensures out.Returned? ==>
                && HasReadAll(log, |old(log)|, busy, consulted) && (out.result.reason.TooBusy? <==> busy)
                && (out.result.reason.DryRun? <==> !busy && choice.Chosen? && dryRun)
    {
      ghost var n := |log|;
      ghost var victim, plans := VictimOf(choice), PlansOf(choice);
      var lock := Acquire(victim, plans);
      if lock.Err? {
        return Raised;
      }
      ghost var locked := log;
      out := InLock(busy, consulted, choice, dryRun, lock.body.Lease?, n);
      if !lock.body.Lease? {
        PassWithoutLease(locked, log, watches, n, victim, plans, busy, choice, dryRun);
        return Raised;
      }
      out := GiveBack(out, busy, consulted, choice, dryRun, n, locked);
    }

    /** Asking for the lock. */
    method Acquire(ghost victim: Dpid, ghost plans: seq<Rewrite>) returns (lock: Reply)
      requires attempts > 0 && IsRecord(log, watches)
      modifies this
      ensures old(log) < log && IsSafe(|old(log)|, victim, plans)
      ensures forall k | |old(log)| <= k < |log| :: log[k].call.AcquireLock?
      ensures lock.Ok? ==>
                var w := Now();
                && IsAcquired(log, |old(log)|, lock.body.Lease?)
                && InPlanning(w) && w.leased == lock.body.Lease? && w.answered == []
      ensures lock.Err? ==>
                && IsLockedPass(log, |old(log)|, Raised)
                && exists k | |old(log)| <= k < |log| :: IsCauseAt(log, watches, k)
    {
      ghost var n := |log|;
      lock := Send(AcquireLock, n, victim, plans);
      assert forall k | n <= k < |log| :: log[k] == log[n..][k - n];
      if lock.Err? {
        assert IsCauseAt(log, watches, |log| - 1);
      }
    }
  }

  ghost function VictimOf(choice: Choice): Dpid {
    if choice.Chosen? then choice.victim else Dpid(0)
  }

  ghost function PlansOf(choice: Choice): seq<Rewrite> {
    if choice.Chosen? then choice.plans else []
  }

  /** An exchange that can end a pass with an exception: an error, or a reply that cannot be used. */
  predicate IsCause(renewals: nat, x: Exchange) {
    x.reply.Err? || (x.call.AcquireLock? && !x.reply.body.Lease?) || IsBadRead(renewals, x)
  }

  ghost predicate IsCauseAt(log: seq<Exchange>, ws: seq<Watch>, k: nat)
    requires k < |log| && |ws| == |log| + 1
  {
    IsCause(ws[k].renewals, log[k])
  }

  predicate InPlanning(w: Watch) {
    w.locked && w.renewals == 0 && !w.off && !w.over
  }

  predicate InWriting(w: Watch) {
    w.locked && w.leased && w.renewals >= 1 && !w.off && !w.over
  }

  /** A read-back that failed, shows no readable rows, or lacks an entry that was written there. */
  ghost predicate DoesNotConfirm(x: Exchange, plans: seq<Rewrite>) {
    && x.call.ReadTable?
    && (x.reply.Ok? && x.reply.body.Rows? && !x.reply.body.unrendered ==>
          exists r :: r in plans && r.dpid == x.call.dpid && !Confirms(x.reply.body.entries, r))
  }

  /** The outcome of the pass is what happened: its `last` exchange is the cause, and nothing, the first
      `n` writes or all of them were answered. */
  ghost predicate Explains(out: Outcome, busy: bool, choice: Choice, dryRun: bool, w: Watch, last: Exchange) {
    match out
    case Raised => IsCause(w.renewals, last) || !w.leased
    case Returned(result) =>
      && (result.victim.Some? ==> choice == Chosen(result.victim.value, result.rewrites))
      && (result.victim.None? ==> result.reason.TooBusy? || result.reason.NothingToTurnOff?)
      && (result.poweredOff ==> result.reason.Ended?)
      && (result.reason.TooBusy? <==> busy)
      && (result.reason.NothingToTurnOff? <==> !busy && choice.NoSwitch?)
      && (result.reason.DryRun? <==> !busy && choice.Chosen? && dryRun)
      && match result.reason
         case TooBusy => w.answered == []
         case NothingToTurnOff => w.answered == []
         case DryRun => w.answered == []
         case NotRenewedNothingWritten => last.call.RenewLock? && last.reply.Err? && w.answered == []
         case WriteStopped(landed, n) =>
           && n < |result.rewrites| && w.answered == result.rewrites[..n]
           && last.call == WriteEntry(result.rewrites[n])
           && last.reply.Err? && landed == !NothingWritten(last.reply.failure)
         case ReadBackDiffers => DoesNotConfirm(last, result.rewrites) && w.answered == result.rewrites
         case NotRenewedRoutesMoved => last.call.RenewLock? && last.reply.Err? && w.answered == result.rewrites
         case PowerOffFailed(taken) =>
           && HasMoved(w, result.rewrites) && last.call.PowerOff?
           && last.reply.Err? && taken == !NothingWritten(last.reply.failure)
         case Ended =>
           && HasMoved(w, result.rewrites) && w.off && last.call.ReadPowerState?
           && last.reply == Ok(PowerState(result.poweredOff))
  }

  /** From exchange `n` on, only reads were sent, or requests for the lock and for its release. */
  ghost predicate ChangesNothing(log: seq<Exchange>, n: nat) {
    forall k | n <= k < |log| :: !log[k].call.RenewLock? && !log[k].call.WriteEntry? && !log[k].call.PowerOff?
  }

  /** The call was made from exchange `n` on, and its reply shows what it was made for in full. */
  ghost predicate HasRead(log: seq<Exchange>, n: nat, c: Call) {
    exists k | n <= k < |log| :: log[k].call == c && log[k].reply.Ok? && !IsBadRead(0, log[k])
  }

  /** The reports and, unless the links are too busy, every table planning consults. */
  ghost predicate HasReadAll(log: seq<Exchange>, n: nat, busy: bool, consulted: seq<Dpid>) {
    && HasRead(log, n, ReadGraph) && HasRead(log, n, ReadUsage) && HasRead(log, n, ReadPower)
    && (!busy ==> forall d | d in consulted :: HasRead(log, n, ReadTable(d)))
  }

  lemma ReadOneMore(log: seq<Exchange>, log': seq<Exchange>, n: nat, calls: seq<Call>, i: nat, attempts: nat,
                    reply: Reply)
    requires log < log' && n <= |log| && i < |calls| && IsCallOnWire(calls[i], log'[|log|..], reply, attempts)
    requires ChangesNothing(log, n) && !IsPost(calls[i]) && forall k | 0 <= k < i :: HasRead(log, n, calls[k])
    ensures ChangesNothing(log', n) && forall k | 0 <= k < i :: HasRead(log', n, calls[k])
    ensures reply.Ok? && !IsBadRead(0, Exchange(calls[i], reply)) ==> HasRead(log', n, calls[i])
  {
    forall k | n <= k < |log'| ensures !IsPost(log'[k].call) || (k < |log| && log'[k] == log[k]) {
      assert k >= |log| ==> log'[k] == log'[|log|..][k - |log|];
    }
    forall k | 0 <= k < i ensures HasRead(log', n, calls[k]) {
      var j :| n <= j < |log| && log[j].call == calls[k] && log[j].reply.Ok? && !IsBadRead(0, log[j]);
      assert log'[j] == log[j];
    }
    assert log'[|log'| - 1] == log'[|log|..][|log'| - |log| - 1] == Exchange(calls[i], reply);
  }

  lemma TablesRead(sofar: seq<Exchange>, log: seq<Exchange>, n: nat, consulted: seq<Dpid>, calls: seq<Call>)
    requires sofar <= log && n <= |sofar| && HasReadAll(sofar, n, true, consulted) && |calls| == |consulted|
    requires forall i | 0 <= i < |calls| :: calls[i] == ReadTable(consulted[i])
    requires forall c | c in calls :: HasRead(log, |sofar|, c)
    ensures HasReadAll(log, n, false, consulted)
  {
    ReadStays(sofar, log, n, n, true, consulted);
    forall d | d in consulted ensures HasRead(log, n, ReadTable(d)) {
      var i :| 0 <= i < |consulted| && consulted[i] == d;
      assert calls[i] in calls;
    }
  }

  lemma ReadStays(log: seq<Exchange>, log': seq<Exchange>, n: nat, m: nat, busy: bool, consulted: seq<Dpid>)
    requires HasReadAll(log, n, busy, consulted) && log <= log' && m <= n
    ensures HasReadAll(log', m, busy, consulted)
  {
    forall c | HasRead(log, n, c) ensures HasRead(log', m, c) {
      var k :| n <= k < |log| && log[k].call == c && log[k].reply.Ok? && !IsBadRead(0, log[k]);
      assert log'[k] == log[k];
    }
  }

  /** What was not changed and what was read since a moment within the pass, told from its beginning. */
  lemma PassReads(sofar: seq<Exchange>, log: seq<Exchange>, n: nat, busy: bool, consulted: seq<Dpid>, dryRun: bool,
                  out: Outcome)
    requires sofar <= log && n <= |sofar|
    requires busy || dryRun ==> ChangesNothing(sofar, n) && ChangesNothing(log, |sofar|)
    requires out.Returned? ==> HasReadAll(log, |sofar|, busy, consulted)
    ensures busy || dryRun ==> ChangesNothing(log, n)
    ensures out.Returned? ==> HasReadAll(log, n, busy, consulted)
  {
    assert forall k | n <= k < |sofar| :: log[k] == sofar[k];
    if out.Returned? {
      ReadStays(log, log, |sofar|, n, busy, consulted);
    }
  }

  /** Whoever reports the switch off has sent the power-off, and it was answered. */
  ghost predicate TurnedOff(out: Outcome, choice: Choice, log: seq<Exchange>, n: nat) {
    out.Returned? && out.result.poweredOff ==>
      choice.Chosen? && exists k | n <= k < |log| :: log[k].call == PowerOff(choice.victim) && log[k].reply.Ok?
  }

  lemma TurnedOffSince(out: Outcome, choice: Choice, log: seq<Exchange>, n: nat, m: nat)
    requires TurnedOff(out, choice, log, m) && n <= m
    ensures TurnedOff(out, choice, log, n)
  {
  }

  /** The pass begins by asking for the lock. A lock that was granted with a lease is followed by an attempt to
      release it, which is the last thing sent; one granted without a lease cannot be released, and nothing
      is posted after it. A pass that returns has released the lock. */
  ghost predicate IsLockedPass(log: seq<Exchange>, n: nat, out: Outcome) {
    && n < |log| && log[n].call == AcquireLock
    && (forall k | n <= k < |log| && log[k].call.AcquireLock? && log[k].reply.Ok? ::
          if log[k].reply.body.Lease?
          then log[|log| - 1].call == ReleaseLock
          else forall j | k < j < |log| :: !IsPost(log[j].call))
    && (out.Returned? ==> log[|log| - 1].call == ReleaseLock && log[|log| - 1].reply.Ok?)
  }

  /** What the pass returns is explained by the exchange before the release, and an exception by some exchange. */
  ghost predicate IsExplained(log: seq<Exchange>, ws: seq<Watch>, n: nat, out: Outcome, busy: bool, choice: Choice,
                              dryRun: bool)
    requires |ws| == |log| + 1
  {
    && TurnedOff(out, choice, log, n)
    && match out
       case Returned(_) => exists k | n < k < |log| :: IsExplainedAt(log, ws, k, out, busy, choice, dryRun)
       case Raised => exists k | n <= k < |log| :: IsCauseAt(log, ws, k)
  }

  /** The log ends with the lock granted, after nothing since `n` but requests for it that failed. */
  ghost predicate IsAcquired(log: seq<Exchange>, n: nat, lease: bool) {
    && n < |log| && log[n].call == AcquireLock
    && log[|log| - 1].call == AcquireLock && log[|log| - 1].reply.Ok? && log[|log| - 1].reply.body.Lease? == lease
    && forall k | n <= k < |log| - 1 :: log[k].reply.Err?
  }

  ghost predicate IsExplainedAt(log: seq<Exchange>, ws: seq<Watch>, k: nat, out: Outcome, busy: bool, choice: Choice,
                                dryRun: bool)
    requires 0 < k <= |log| && |ws| == |log| + 1
  {
    Explains(out, busy, choice, dryRun, ws[k], log[k - 1])
  }

  lemma PassWithoutLease(locked: seq<Exchange>, log: seq<Exchange>, ws: seq<Watch>, n: nat, victim: Dpid,
                         plans: seq<Rewrite>, busy: bool, choice: Choice, dryRun: bool)
    requires IsSafeFrom(log, ws, n, victim, plans) && IsAcquired(locked, n, false) && locked <= log
    ensures IsLockedPass(log, n, Raised) && IsExplained(log, ws, n, Raised, busy, choice, dryRun)
  {
    var a := |locked| - 1;
    assert forall k | 0 <= k < |locked| :: log[k] == locked[k];
    NoAcquireBetween(log, ws, n, victim, plans, a, |log|);
    forall j | a < j < |log| ensures !IsPost(log[j].call) {
      NothingPostedWithoutLease(log, ws, n, victim, plans, a, j);
    }
    assert IsCauseAt(log, ws, a);
  }

  lemma PassReleased(locked: seq<Exchange>, log: seq<Exchange>, ws: seq<Watch>, n: nat, victim: Dpid,
                     plans: seq<Rewrite>, out: Outcome)
    requires IsSafeFrom(log, ws, n, victim, plans) && IsAcquired(locked, n, true) && locked < log
    requires log[|log| - 1].call == ReleaseLock && (out.Returned? ==> log[|log| - 1].reply.Ok?)
    ensures IsLockedPass(log, n, out)
  {
    assert forall k | 0 <= k < |locked| :: log[k] == locked[k];
    NoAcquireBetween(log, ws, n, victim, plans, |locked| - 1, |log|);
  }

  lemma PassExplained(sofar: seq<Exchange>, log: seq<Exchange>, ws: seq<Watch>, n: nat, out: Outcome, busy: bool,
                      choice: Choice, dryRun: bool)
    requires n < |sofar| && sofar < log && |ws| == |log| + 1
    requires TurnedOff(out, choice, sofar, n)
    requires out.Returned? ==> Explains(out, busy, choice, dryRun, ws[|sofar|], sofar[|sofar| - 1])
    requires out.Raised? ==> log[|log| - 1].reply.Err? || exists k | n <= k < |sofar| :: IsCauseAt(log, ws, k)
    ensures IsExplained(log, ws, n, out, busy, choice, dryRun)
  {
    assert forall k | 0 <= k < |sofar| :: log[k] == sofar[k];
    if out.Returned? {
      assert IsExplainedAt(log, ws, |sofar|, out, busy, choice, dryRun);
    } else if log[|log| - 1].reply.Err? {
      assert IsCauseAt(log, ws, |log| - 1);
    }
  }

  lemma CauseStays(sofar: seq<Exchange>, ws: seq<Watch>, log: seq<Exchange>, ws': seq<Watch>, n: nat, out: Outcome)
    requires |ws| == |sofar| + 1 && |ws'| == |log| + 1 && sofar <= log && ws <= ws'
    requires out.Raised? ==> exists k | n <= k < |sofar| :: IsCauseAt(sofar, ws, k)
    ensures out.Raised? ==> exists k | n <= k < |sofar| :: IsCauseAt(log, ws', k)
  {
    if out.Raised? {
      var k :| n <= k < |sofar| && IsCauseAt(sofar, ws, k);
      assert IsCauseAt(log, ws', k);
    }
  }

  /** A pass that ends with an exception has its cause in the log, since the lock was asked for. */
  lemma CauseIsThere(locked: seq<Exchange>, log: seq<Exchange>, ws: seq<Watch>, n: nat, out: Outcome, busy: bool,
                     choice: Choice, dryRun: bool)
    requires IsRecord(log, ws) && IsAcquired(locked, n, ws[|log|].leased) && locked <= log
    requires Explains(out, busy, choice, dryRun, ws[|log|], log[|log| - 1])
    ensures out.Raised? ==> exists k | n <= k < |log| :: IsCauseAt(log, ws, k)
  {
    if out.Raised? {
      var k := if ws[|log|].leased then |log| - 1 else |locked| - 1;
      assert IsStep(log, ws, |log| - 1);
      assert IsCauseAt(log, ws, k);
    }
  }

  /** What the writes and their read-back came to is what happened. */
  ghost predicate IsApplied(res: Applied, plans: seq<Rewrite>, w: Watch, last: Exchange) {
    match res
    case AllConfirmed => true
    case WriteFailed(n, e) => n < |plans| && w.answered == plans[..n] && last == Exchange(WriteEntry(plans[n]), Err(e))
    case NotConfirmed => w.answered == plans && DoesNotConfirm(last, plans)
    case Crashed => w.answered == plans && IsCause(w.renewals, last)
  }

  /** The outcome of a pass whose writes were not all confirmed. */
  function OutcomeOf(res: Applied, result: PassResult): Option<Outcome> {
    match res
    case Crashed => Some(Raised)
    case NotConfirmed => Some(Returned(result.(reason := ReadBackDiffers)))
    case WriteFailed(n, e) => Some(Returned(result.(reason := WriteStopped(!NothingWritten(e), n))))
    case AllConfirmed => None
  }

  lemma AppliedExplains(res: Applied, plans: seq<Rewrite>, result: PassResult, w: Watch, last: Exchange)
    requires IsApplied(res, plans, w, last) && !res.AllConfirmed?
    requires result.victim.Some? && result.rewrites == plans && !result.poweredOff
    ensures Explains(OutcomeOf(res, result).value, false, Chosen(result.victim.value, plans), false, w, last)
  {
  }
}
