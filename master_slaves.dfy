/**
 * The master's record of each build worker ("slave") and the reply it sends
 * to each worker message (`SlaveState` and the reply choice inside
 * `slave_driver` in piwheels/master/__init__.py).
 */
module MasterSlaves {
  import opened Wrappers
  import opened MasterTransfer

  /** The fields of a `BUILT` message after its name: what the worker reports about a build. */
  datatype BuildReport = BuildReport(
    package: string,
    version: string,
    status: bool,
    output: string,
    filename: string,
    filesize: nat,
    filehash: string,
    duration: string,
    packageVersionTag: string,
    pyVersionTag: string,
    abiTag: string,
    platformTag: string)

  /** `BuildState`: a build report stamped with the id of the worker that sent it. */
  datatype BuildState = BuildState(
    slaveId: nat,
    package: string,
    version: string,
    status: bool,
    output: string,
    filename: string,
    filesize: nat,
    filehash: string,
    duration: string,
    packageVersionTag: string,
    pyVersionTag: string,
    abiTag: string,
    platformTag: string)

  /** `BuildState(self._slave_id, *value[1:])`. */
  function StampBuild(slaveId: nat, r: BuildReport): (b: BuildState)
    ensures b.slaveId == slaveId && b.status == r.status && b.filesize == r.filesize
    ensures b.package == r.package && b.version == r.version && b.filename == r.filename
    ensures b.filehash == r.filehash
  {
    BuildState(slaveId, r.package, r.version, r.status, r.output, r.filename, r.filesize,
               r.filehash, r.duration, r.packageVersionTag, r.pyVersionTag, r.abiTag, r.platformTag)
  }

  /** A message from a worker, by its first element. */
  datatype Request =
    | Hello
    | Bye
    | Idle
    | Built(report: BuildReport)
    | Sent
    | Unknown(name: string)

  /** A reply from the master. */
  datatype Reply =
    | HelloReply(slaveId: nat)
    | ByeReply
    | SleepReply
    | BuildReply(package: string, version: string)
    | SendReply
    | DoneReply

  /** A (package, version) pair waiting in the build queue. */
  datatype QueueItem = QueueItem(package: string, version: string)

  /** `SlaveState.counter`: the class-wide count of workers seen so far. */
  class SlaveCounter {
    var count: nat
    /** Every id handed out so far. */
    ghost var issued: set<nat>

    ghost predicate Valid()
      reads this
    {
      forall id | id in issued :: 1 <= id <= count
    }

    constructor ()
      ensures Valid() && count == 0 && issued == {}
    {
      count := 0;
      issued := {};
    }
  }

  class SlaveState {
    const slaveId: nat
    /** The time of the last request (a clock reading passed in by the caller). */
    var lastSeen: Option<int>
    var request: Option<Request>
    var reply: Option<Reply>
    var build: Option<BuildState>
    var transfer: TransferState?
    var terminated: bool

    /** A transfer exists only for a recorded build. */
    ghost predicate Valid()
      reads this, transfer
    {
      transfer != null ==> build.Some? && transfer.Valid()
    }

    /** A new worker gets the next id from the counter: larger than, hence distinct from, every earlier one. */
    constructor (counter: SlaveCounter)
      requires counter.Valid()
      modifies counter
      ensures counter.Valid()
      ensures counter.count == old(counter.count) + 1 && slaveId == counter.count
      ensures slaveId !in old(counter.issued)
      ensures forall id | id in old(counter.issued) :: id < slaveId
      ensures counter.issued == old(counter.issued) + {slaveId}
      ensures Valid()
      ensures lastSeen == None && request == None && reply == None
      ensures build == None && transfer == null && !terminated
    {
      counter.count := counter.count + 1;
      counter.issued := counter.issued + {counter.count};
      slaveId := counter.count;
      lastSeen := None;
      request := None;
      reply := None;
      build := None;
      transfer := null;
      terminated := false;
    }

    /** `kill`: the worker is told `BYE` at its next `IDLE`. */
    method Kill()
      modifies this
      ensures terminated
      ensures lastSeen == old(lastSeen) && request == old(request) && reply == old(reply)
      ensures build == old(build) && transfer == old(transfer)
    {
      terminated := true;
    }

    /** The `request` setter: records the message and, for `BUILT`, the build it reports. */
    method SetRequest(value: Request, now: int)
      requires Valid()
      modifies this
      ensures Valid()
      ensures lastSeen == Some(now) && request == Some(value)
      ensures build == if value.Built? then Some(StampBuild(slaveId, value.report)) else old(build)
      ensures reply == old(reply) && transfer == old(transfer) && terminated == old(terminated)
    {
      lastSeen := Some(now);
      request := Some(value);
      if value.Built? {
        build := Some(StampBuild(slaveId, value.report));
      }
    }

    /**
     * The `reply` setter: `SEND` starts a fresh transfer of the recorded
     * build's file, `DONE` forgets the build and its transfer.
     */
    method SetReply(value: Reply)
      requires Valid()
      requires value.SendReply? ==> build.Some?
      modifies this
      ensures Valid()
      ensures reply == Some(value)
      ensures value.SendReply? ==> fresh(transfer) && transfer.missing == InitialMissing(build.value.filesize)
      ensures value.SendReply? ==> transfer.file == Zeros(build.value.filesize)
      ensures value.SendReply? ==> transfer.credit == InitialCredit(build.value.filesize)
      ensures value.SendReply? ==> transfer.offset == 0
      ensures value.DoneReply? ==> build == None && transfer == null
      ensures !value.DoneReply? ==> build == old(build)
      ensures !value.SendReply? && !value.DoneReply? ==> transfer == old(transfer)
      ensures lastSeen == old(lastSeen) && request == old(request) && terminated == old(terminated)
    {
      reply := Some(value);
      if value.SendReply? {
        transfer := new TransferState(build.value.filesize);
      } else if value.DoneReply? {
        build := None;
        transfer := null;
      }
    }
  }

  /**
   * The reply `slave_driver` sends to a known worker's message, or `None`
   * when it sends none. `build` and `hasTransfer` are the worker's state after
   * the `request` setter ran; `next` is the head of the build queue, if any;
   * `verified` is whether the received file's hash matches the build's.
   *
   * The reply table, stated per reply: `HELLO` carries the worker's own id;
   * `BYE` goes only to a terminated worker; work is handed out only to a live
   * worker while not paused, and only what heads the queue; an unknown
   * message gets no reply.
   */
  function DecideReply(msg: Request, slaveId: nat, terminated: bool, build: Option<BuildState>,
                       hasTransfer: bool, paused: bool, next: Option<QueueItem>,
                       verified: bool): (r: Option<Reply>)
    requires msg.Built? ==> build.Some?
    ensures r.None? <==> msg.Bye? || msg.Unknown? || (msg.Sent? && !hasTransfer)
    ensures msg.Hello? ==> r == Some(HelloReply(slaveId))
    ensures r.Some? && r.value.HelloReply? ==> msg.Hello?
    ensures r == Some(ByeReply) <==> msg.Idle? && terminated
    ensures r == Some(SleepReply) <==> msg.Idle? && !terminated && (paused || next.None?)
    ensures r.Some? && r.value.BuildReply? <==> msg.Idle? && !terminated && !paused && next.Some?
    ensures r.Some? && r.value.BuildReply? ==> r.value == BuildReply(next.value.package, next.value.version)
    ensures r == Some(SendReply) <==> (msg.Built? && build.value.status) || (msg.Sent? && hasTransfer && !verified)
    ensures r == Some(DoneReply) <==> (msg.Built? && !build.value.status) || (msg.Sent? && hasTransfer && verified)
  {
    match msg
    case Hello => Some(HelloReply(slaveId))
    case Bye => None
    case Idle =>
      if terminated then Some(ByeReply)
      else if paused then Some(SleepReply)
      else if next.Some? then Some(BuildReply(next.value.package, next.value.version))
      else Some(SleepReply)
    case Built(_) => if build.value.status then Some(SendReply) else Some(DoneReply)
    case Sent =>
      if !hasTransfer then None
      else if verified then Some(DoneReply)
      else Some(SendReply)
    case Unknown(_) => None
  }

  /** What one pass of the `slave_driver` loop does with a known worker's message. */
  datatype Step = Silent | Answer(reply: Reply)

  /**
   * The reply choice as the source writes it: an unknown message from a
   * known worker is logged and then falls through to `slave.reply = reply`,
   * re-sending whatever `reply` held from the loop's previous message.
   * A worker is known only after its `HELLO` passed through the same loop
   * and assigned `reply`, so `previous` always exists here.
   */
  function DecideReplyAsWritten(msg: Request, slaveId: nat, terminated: bool,
                                build: Option<BuildState>, hasTransfer: bool, paused: bool,
                                next: Option<QueueItem>, verified: bool,
                                previous: Reply): (s: Step)
    requires msg.Built? ==> build.Some?
    ensures msg.Unknown? ==> s == Answer(previous)
    ensures !msg.Unknown? ==>
              (s.Silent? <==> msg.Bye? || (msg.Sent? && !hasTransfer)) &&
              (s.Answer? ==> Some(s.reply) == DecideReply(msg, slaveId, terminated, build, hasTransfer, paused, next, verified))
  {
    if msg.Unknown? then
      Answer(previous)
    else
      match DecideReply(msg, slaveId, terminated, build, hasTransfer, paused, next, verified)
      case None => Silent
      case Some(r) => Answer(r)
  }

  /**
   * As written, a worker that sends an unknown message right after another
   * worker's `HELLO` is answered with that other worker's id.
   */
  lemma UnknownMessageGetsStaleReply()
    ensures var previous := DecideReply(Hello, 1, false, None, false, false, None, false);
      previous.Some? &&
      DecideReplyAsWritten(Unknown("STATUS"), 2, false, None, false, false, None, false, previous.value)
        == Answer(HelloReply(1))
  {
  }

  /**
   * As written, a stale `SEND` can reach a worker that has no build, so the
   * `reply` setter, which needs the build's file size, cannot run.
   */
  lemma UnknownMessageGetsStaleSend(slaveId: nat, paused: bool, next: Option<QueueItem>, verified: bool)
    ensures var s := DecideReplyAsWritten(Unknown("STATUS"), slaveId, false, None, false, paused, next,
                                          verified, SendReply);
      s == Answer(SendReply) && DecideReply(Unknown("STATUS"), slaveId, false, None, false, paused, next, verified).None?
  {
  }

  /**
   * One exchange with a known worker: the `request` setter, the reply choice,
   * then the `reply` setter when a reply is sent.
   */
  method Exchange(slave: SlaveState, msg: Request, now: int, paused: bool,
                  next: Option<QueueItem>, verified: bool) returns (reply: Option<Reply>)
    requires slave.Valid()
    modifies slave
    ensures slave.Valid()
    ensures msg.Built? ==> slave.build == Some(StampBuild(slave.slaveId, msg.report)) || reply == Some(DoneReply)
    ensures reply == DecideReply(msg, slave.slaveId, old(slave.terminated),
                                 if msg.Built? then Some(StampBuild(slave.slaveId, msg.report)) else old(slave.build),
                                 old(slave.transfer) != null, paused, next, verified)
    ensures reply == Some(SendReply) ==> slave.build.Some? && fresh(slave.transfer)
    ensures reply == Some(SendReply) ==> slave.transfer.missing == InitialMissing(slave.build.value.filesize)
    ensures reply == Some(SendReply) ==>
              slave.transfer.file == Zeros(slave.build.value.filesize) &&
              slave.transfer.credit == InitialCredit(slave.build.value.filesize) && slave.transfer.offset == 0
    ensures reply == Some(DoneReply) ==> slave.build == None && slave.transfer == null
    ensures reply.Some? ==> slave.reply == reply
    ensures reply.None? ==> slave.reply == old(slave.reply) && slave.transfer == old(slave.transfer)
    ensures slave.terminated == old(slave.terminated) && slave.request == Some(msg)
    ensures slave.lastSeen == Some(now)
    ensures !msg.Built? && reply != Some(DoneReply) ==> slave.build == old(slave.build)
    ensures reply.Some? && !reply.value.SendReply? && !reply.value.DoneReply? ==> slave.transfer == old(slave.transfer)
  {
    slave.SetRequest(msg, now);
    reply := DecideReply(msg, slave.slaveId, slave.terminated, slave.build,
                         slave.transfer != null, paused, next, verified);
    if reply.Some? {
      slave.SetReply(reply.value);
    }
  }
}
