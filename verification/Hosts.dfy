/** The unit's host as the charm sees it: files, systemd units, service processes, and
    external steps that may fail. Every step consults the next reply of the environment
    and is recorded in the trace; a theorem about all hosts is a theorem about all
    starting disks and all fault schedules. */
module Hosts {
  import opened Text
  import V = Versions

  type Bytes = string

  datatype File = File(data: Bytes, mode: nat)

  datatype ManagedFile =
    | NodeBinary | CliBinary | ProxyBinary
    | NodeEnv | MonitorEnv | ProxyEnv
    | MonitorScript
    | NodeUnit | MonitorUnit | ProxyUnit

  /** `Staged` is a file of the temporary release directory, `Temporary` the fresh file
      beside a target that an atomic replacement writes first. */
  datatype Path =
    | Managed(file: ManagedFile)
    | Staged(name: string)
    | Temporary(target: Path)
    | Elsewhere(name: string)

  predicate Scratch(p: Path) {
    p.Staged? || p.Temporary?
  }

  type Disk = map<Path, File>

  function At(disk: Disk, p: Path): (file: Option<File>)
    ensures file.Some? <==> p in disk
  {
    if p in disk then Some(disk[p]) else None
  }

  /** The disk after a rename. */
  function Moved(disk: Disk, source: Path, path: Path): (after: Disk)
    requires source in disk && source != path
    ensures At(after, path) == At(disk, source) && At(after, source) == None
    ensures forall p | p != path && p != source :: At(after, p) == At(disk, p)
  {
    disk[path := disk[source]] - {source}
  }

  const DEFAULT_MODE: nat := 420 // 0o644
  const EXECUTABLE_MODE: nat := 493 // 0o755

  /** The mode a write in place leaves: that of an existing file, else the default. */
  function ModeOf(disk: Disk, p: Path): nat {
    match At(disk, p)
    case None => DEFAULT_MODE
    case Some(file) => file.mode
  }

  datatype Service = Node | Monitor | Proxy

  function UnitOf(s: Service): Path {
    match s
    case Node => Managed(NodeUnit)
    case Monitor => Managed(MonitorUnit)
    case Proxy => Managed(ProxyUnit)
  }

  /** The files a process was launched with, and when. */
  datatype Launch = Launch(image: Disk, at: nat)

  /** What the environment answers to one external step.
      - `ok`: the step succeeds
      - `debris`: what a failed write leaves at its path, if anything
      - `up`: whether the service is running after a service command
      - `relaunched`: whether a failed service command left a new process
      - `version`: what a running node reports to a probe
      - `first`, `second`: what a download delivers
      - `swept`: what a failed clean-up of the release directory has removed */
  datatype Reply = Reply(
    ok: bool, debris: Option<Bytes>, up: bool, relaunched: bool, version: Option<string>,
    first: Bytes, second: Bytes, swept: set<string>)

  datatype Op =
    | Read(path: Path) | Write(path: Path) | Chmod(path: Path) | Rename(source: Path, path: Path) | Unlink(path: Path)
    | Fetch | Stage | Sweep
    | Reload
    | Start(service: Service) | Stop(service: Service) | Restart(service: Service)
    | Probe(user: string, password: string, process: Option<Launch>)

  ghost predicate IsFileOp(op: Op) {
    op.Read? || op.Write? || op.Chmod? || op.Rename? || op.Unlink? || op.Fetch?
  }

  ghost predicate IsReleaseOp(op: Op) {
    op.Rename? || op.Unlink? || op.Stage? || op.Sweep?
  }

  ghost predicate IsMove(op: Op) {
    op.Rename? || op.Unlink?
  }

  predicate Launches(op: Op) {
    op.Start? || op.Restart?
  }

  /** One external step, and the disk after it. */
  datatype Event = Event(op: Op, reply: Reply, disk: Disk)

  ghost predicate OnlyTouches(before: Disk, after: Disk, area: iset<Path>) {
    forall p | p !in area :: At(after, p) == At(before, p)
  }

  ghost function ScratchArea(): iset<Path> {
    iset p: Path | Scratch(p)
  }

  /** Equal apart from files of the release directory and temporary files. */
  ghost predicate SameFiles(a: Disk, b: Disk) {
    OnlyTouches(a, b, ScratchArea())
  }

  ghost predicate AllOk(trace: seq<Event>, from: nat) {
    forall i | from <= i < |trace| :: trace[i].reply.ok
  }

  ghost predicate SomeFailed(trace: seq<Event>, from: nat) {
    exists i | from <= i < |trace| :: !trace[i].reply.ok
  }

  function With(running: set<Service>, s: Service, up: bool): set<Service> {
    if up then running + {s} else running - {s}
  }

  /** A failed service command has left a new process: it always has if the service runs
      now and did not before. */
  predicate NewAfterFailure(r: Reply, s: Service, running: set<Service>) {
    r.up && (r.relaunched || s !in running)
  }

  class Host {
    /** The reply to the step at a position of the trace. */
    const reply: (nat, Op) -> Reply
    const monitorTemplate: Bytes
    const proxyUnitTemplate: Bytes
    /** The numbers `_version_parts` finds in a text, `None` when there are none. */
    const numbers: string -> Option<seq<nat>>

    var disk: Disk
    /** The unit files systemd has read. */
    var loaded: map<Service, Option<File>>
    var running: set<Service>
    /** How the last process of a service was launched. */
    var launched: map<Service, Launch>
    var trace: seq<Event>

    constructor (reply: (nat, Op) -> Reply, monitorTemplate: Bytes, proxyUnitTemplate: Bytes,
                 numbers: string -> Option<seq<nat>>, disk: Disk, loaded: map<Service, Option<File>>,
                 running: set<Service>, launched: map<Service, Launch>)
      ensures this.reply == reply && this.monitorTemplate == monitorTemplate
      ensures this.proxyUnitTemplate == proxyUnitTemplate && this.numbers == numbers
      ensures this.disk == disk && this.loaded == loaded && this.running == running && this.launched == launched
      ensures trace == [] && Genuine()
    {
      this.reply, this.monitorTemplate, this.proxyUnitTemplate := reply, monitorTemplate, proxyUnitTemplate;
      this.numbers, this.disk, this.loaded, this.running, this.launched := numbers, disk, loaded, running, launched;
      trace := [];
    }

    function Next(op: Op): Reply
      reads this`trace
    {
      reply(|trace|, op)
    }

    /** Every recorded reply is the environment's. */
    ghost predicate Genuine()
      reads this`trace
    {
      forall i | 0 <= i < |trace| :: trace[i].reply == reply(i, trace[i].op)
    }

    // ------------------------------------------------------------ steps on files

    method Read(path: Path) returns (ok: bool, file: Option<File>)
      requires Genuine()
      modifies this`trace
      ensures Genuine()
      ensures ok == old(Next(Op.Read(path))).ok && file == At(disk, path)
      ensures trace == old(trace) + [Event(Op.Read(path), old(Next(Op.Read(path))), disk)]
    {
      var r := Next(Op.Read(path));
      ok, file := r.ok, At(disk, path);
      trace := trace + [Event(Op.Read(path), r, disk)];
    }

    /** Writes over a file where it stands; a failure may leave debris there. */
    method Write(path: Path, data: Bytes) returns (ok: bool)
      requires Genuine()
      modifies this`disk, this`trace
      ensures Genuine()
      ensures ok == old(Next(Op.Write(path))).ok
      ensures disk ==
        if ok then old(disk)[path := File(data, ModeOf(old(disk), path))]
        else if old(Next(Op.Write(path))).debris.Some?
          then old(disk)[path := File(old(Next(Op.Write(path))).debris.value, ModeOf(old(disk), path))]
        else old(disk)
      ensures trace == old(trace) + [Event(Op.Write(path), old(Next(Op.Write(path))), disk)]
    {
      var r := Next(Op.Write(path));
      ok := r.ok;
      if ok {
        disk := disk[path := File(data, ModeOf(disk, path))];
      } else if r.debris.Some? {
        disk := disk[path := File(r.debris.value, ModeOf(disk, path))];
      }
      trace := trace + [Event(Op.Write(path), r, disk)];
    }

    method Chmod(path: Path, mode: nat) returns (ok: bool)
      requires Genuine()
      modifies this`disk, this`trace
      ensures Genuine()
      ensures ok == (old(Next(Op.Chmod(path))).ok && path in old(disk))
      ensures disk == if ok then old(disk)[path := old(disk)[path].(mode := mode)] else old(disk)
      ensures trace == old(trace) + [Event(Op.Chmod(path), old(Next(Op.Chmod(path))), disk)]
    {
      var r := Next(Op.Chmod(path));
      ok := r.ok && path in disk;
      if ok {
        disk := disk[path := disk[path].(mode := mode)];
      }
      trace := trace + [Event(Op.Chmod(path), r, disk)];
    }

    /** `os.replace`: all or nothing. */
    method Rename(source: Path, path: Path) returns (ok: bool)
      requires source != path
      requires Genuine()
      modifies this`disk, this`trace
      ensures Genuine()
      ensures ok == (old(Next(Op.Rename(source, path))).ok && source in old(disk))
      ensures disk == if ok then Moved(old(disk), source, path) else old(disk)
      ensures trace == old(trace) + [Event(Op.Rename(source, path), old(Next(Op.Rename(source, path))), disk)]
    {
      var r := Next(Op.Rename(source, path));
      ok := r.ok && source in disk;
      if ok {
        disk := Moved(disk, source, path);
      }
      trace := trace + [Event(Op.Rename(source, path), r, disk)];
    }

    /** `unlink(missing_ok=True)` */
    method Unlink(path: Path) returns (ok: bool)
      requires Genuine()
      modifies this`disk, this`trace
      ensures Genuine()
      ensures ok == old(Next(Op.Unlink(path))).ok
      ensures disk == if ok then old(disk) - {path} else old(disk)
      ensures trace == old(trace) + [Event(Op.Unlink(path), old(Next(Op.Unlink(path))), disk)]
    {
      var r := Next(Op.Unlink(path));
      ok := r.ok;
      if ok {
        disk := disk - {path};
      }
      trace := trace + [Event(Op.Unlink(path), r, disk)];
    }

    method Fetch() returns (ok: bool, data: Bytes)
      requires Genuine()
      modifies this`trace
      ensures Genuine()
      ensures ok == old(Next(Op.Fetch)).ok && data == old(Next(Op.Fetch)).first
      ensures trace == old(trace) + [Event(Op.Fetch, old(Next(Op.Fetch)), disk)]
    {
      var r := Next(Op.Fetch);
      ok, data := r.ok, r.first;
      trace := trace + [Event(Op.Fetch, r, disk)];
    }

    /** Download, checks and extraction of one release into the release directory. */
    method StageRelease(daemon: Path, client: Path) returns (ok: bool)
      requires daemon.Staged? && client.Staged? && daemon != client
      requires Genuine()
      modifies this`disk, this`trace
      ensures Genuine()
      ensures ok == old(Next(Stage)).ok
      ensures OnlyTouches(old(disk), disk, iset{daemon, client})
      ensures ok ==> At(disk, daemon) == Some(File(old(Next(Stage)).first, EXECUTABLE_MODE))
      ensures ok ==> At(disk, client) == Some(File(old(Next(Stage)).second, EXECUTABLE_MODE))
      ensures trace == old(trace) + [Event(Stage, old(Next(Stage)), disk)]
    {
      var r := Next(Stage);
      ok := r.ok;
      if ok {
        disk := disk[daemon := File(r.first, EXECUTABLE_MODE)][client := File(r.second, EXECUTABLE_MODE)];
      } else if r.debris.Some? {
        disk := disk[daemon := File(r.debris.value, DEFAULT_MODE)];
      }
      trace := trace + [Event(Stage, r, disk)];
    }

    /** Removal of the release directory with everything in it. */
    method SweepStage() returns (ok: bool)
      requires Genuine()
      modifies this`disk, this`trace
      ensures Genuine()
      ensures ok == old(Next(Sweep)).ok
      ensures SameFiles(old(disk), disk)
      ensures ok ==> forall name :: Staged(name) !in disk
      ensures trace == old(trace) + [Event(Sweep, old(Next(Sweep)), disk)]
    {
      var r := Next(Sweep);
      ok := r.ok;
      disk := map p | p in disk && !(p.Staged? && (ok || p.name in r.swept)) :: disk[p];
      trace := trace + [Event(Sweep, r, disk)];
    }

    // --------------------------------------------------------- steps on services

    /** systemd has read the unit files that are on disk. */
    ghost predicate UnitsLoaded()
      reads this`loaded, this`disk
    {
      && Node in loaded && loaded[Node] == At(disk, Managed(NodeUnit))
      && Monitor in loaded && loaded[Monitor] == At(disk, Managed(MonitorUnit))
      && Proxy in loaded && loaded[Proxy] == At(disk, Managed(ProxyUnit))
    }

    method Reload() returns (ok: bool)
      requires Genuine()
      modifies this`loaded, this`trace
      ensures Genuine()
      ensures ok == old(Next(Op.Reload)).ok
      ensures ok ==> UnitsLoaded()
      ensures !ok ==> loaded == old(loaded)
      ensures trace == old(trace) + [Event(Op.Reload, old(Next(Op.Reload)), disk)]
    {
      var r := Next(Op.Reload);
      ok := r.ok;
      if ok {
        loaded := map s | s in {Node, Monitor, Proxy} :: At(disk, UnitOf(s));
      }
      trace := trace + [Event(Op.Reload, r, disk)];
    }

    /** `systemctl start`: does nothing to a service that is running. A failed service
        command leaves that one service in whatever state the reply says. */
    method Start(s: Service) returns (ok: bool)
      requires Genuine()
      modifies this`running, this`launched, this`trace
      ensures Genuine()
      ensures ok == old(Next(Op.Start(s))).ok
      ensures running == if ok && s in old(running) then old(running)
        else With(old(running), s, old(Next(Op.Start(s))).up)
      ensures launched ==
        if (if ok then s !in old(running) else NewAfterFailure(old(Next(Op.Start(s))), s, old(running)))
        then old(launched)[s := Launch(disk, |old(trace)|)] else old(launched)
      ensures trace == old(trace) + [Event(Op.Start(s), old(Next(Op.Start(s))), disk)]
    {
      var r := Next(Op.Start(s));
      ok := r.ok;
      if ok {
        if s !in running {
          running, launched := With(running, s, r.up), launched[s := Launch(disk, |trace|)];
        }
      } else {
        Settle(s, r);
      }
      trace := trace + [Event(Op.Start(s), r, disk)];
    }

    method Stop(s: Service) returns (ok: bool)
      requires Genuine()
      modifies this`running, this`launched, this`trace
      ensures Genuine()
      ensures ok == old(Next(Op.Stop(s))).ok
      ensures running == if ok then old(running) - {s} else With(old(running), s, old(Next(Op.Stop(s))).up)
      ensures launched ==
        if !ok && NewAfterFailure(old(Next(Op.Stop(s))), s, old(running))
          then old(launched)[s := Launch(disk, |old(trace)|)]
          else old(launched)
      ensures trace == old(trace) + [Event(Op.Stop(s), old(Next(Op.Stop(s))), disk)]
    {
      var r := Next(Op.Stop(s));
      ok := r.ok;
      if ok {
        running := running - {s};
      } else {
        Settle(s, r);
      }
      trace := trace + [Event(Op.Stop(s), r, disk)];
    }

    method Restart(s: Service) returns (ok: bool)
      requires Genuine()
      modifies this`running, this`launched, this`trace
      ensures Genuine()
      ensures ok == old(Next(Op.Restart(s))).ok
      ensures running == With(old(running), s, old(Next(Op.Restart(s))).up)
      ensures launched ==
        if ok || (NewAfterFailure(old(Next(Op.Restart(s))), s, old(running)))
          then old(launched)[s := Launch(disk, |old(trace)|)]
          else old(launched)
      ensures trace == old(trace) + [Event(Op.Restart(s), old(Next(Op.Restart(s))), disk)]
    {
      var r := Next(Op.Restart(s));
      ok := r.ok;
      if ok {
        running, launched := With(running, s, r.up), launched[s := Launch(disk, |trace|)];
      } else {
        Settle(s, r);
      }
      trace := trace + [Event(Op.Restart(s), r, disk)];
    }

    method Settle(s: Service, r: Reply)
      modifies this`running, this`launched
      ensures running == With(old(running), s, r.up)
      ensures launched == if NewAfterFailure(r, s, old(running)) then old(launched)[s := Launch(disk, |trace|)]
        else old(launched)
    {
      var launch := NewAfterFailure(r, s, running);
      running := With(running, s, r.up);
      if launch {
        launched := launched[s := Launch(disk, |trace|)];
      }
    }

    /** The process a probe meets, as far as its launch is known. */
    function NodeProcess(): Option<Launch>
      reads this`running, this`launched
    {
      if Node in running && Node in launched then Some(launched[Node]) else None
    }

    /** `wait_for_running_version`: all polls as one step; only a running node answers. */
    method Probe(user: string, password: string) returns (ok: bool, version: Option<string>)
      requires Genuine()
      modifies this`trace
      ensures Genuine()
      ensures ok == old(Next(Op.Probe(user, password, NodeProcess()))).ok
      ensures version == if ok && Node in running
        then old(Next(Op.Probe(user, password, NodeProcess()))).version else None
      ensures trace == old(trace) + [Event(Op.Probe(user, password, NodeProcess()),
        old(Next(Op.Probe(user, password, NodeProcess()))), disk)]
    {
      var r := Next(Op.Probe(user, password, NodeProcess()));
      ok := r.ok;
      version := if ok && Node in running then r.version else None;
      trace := trace + [Event(Op.Probe(user, password, NodeProcess()), r, disk)];
    }

    // ------------------------------------------------------------------ versions

    /** Both texts have a version in them, and the two agree in every component, a missing
        one counting as zero. */
    ghost predicate SameRelease(a: string, b: string) {
      && numbers(a).Some? && numbers(b).Some?
      && forall i: nat :: V.Component(numbers(a).value, i) == V.Component(numbers(b).value, i)
    }

    /** A step that gives the charm no reason to fail. `expected` is the version a probe
        has to report, if one is required. */
    ghost predicate Smooth(e: Event, expected: Option<string>) {
      && e.reply.ok
      && (Launches(e.op) ==> e.reply.up)
      && (e.op.Probe? ==>
            e.reply.version.Some? && (expected.Some? ==> SameRelease(e.reply.version.value, expected.value)))
    }

    /** A probe met the running node, which reported this version: the numbers in both texts
        are the same, trailing zeros apart. */
    ghost predicate Reports(e: Event, version: string) {
      && e.op.Probe? && e.op.process.Some? && e.reply.ok && e.reply.version.Some?
      && numbers(e.reply.version.value).Some? && numbers(version).Some?
      && var found, expected := numbers(e.reply.version.value).value, numbers(version).value;
         forall i: nat ::
           (if i < |found| then found[i] else 0) == (if i < |expected| then expected[i] else 0)
    }
  }

  /** Some step since `from` gave the charm a reason to fail. */
  ghost predicate Rough(host: Host, trace: seq<Event>, from: nat, expected: Option<string>) {
    exists i | from <= i < |trace| :: !host.Smooth(trace[i], expected)
  }

  /** A step at which the charm stops going forward. A node that was launched without an
      error is judged by the probe that follows; the exit status of a unit reload is ignored. */
  ghost predicate Fails(host: Host, e: Event, expected: Option<string>) {
    !e.op.Reload? && !host.Smooth(e, expected) && !(e.reply.ok && Launches(e.op) && e.op.service == Node)
  }

  /** What may follow such a step: clean-up, and bringing the node back. */
  ghost predicate CleansUp(op: Op) {
    op.Rename? || op.Unlink? || op.Sweep? || op == Stop(Node) || op == Start(Node)
  }

  /** Nothing but clean-up follows the first step that fails. */
  ghost predicate StopsAtFailure(host: Host, trace: seq<Event>, from: nat, expected: Option<string>) {
    forall i, j | from <= i < j < |trace| && Fails(host, trace[i], expected) :: CleansUp(trace[j].op)
  }

  lemma StopsLater(host: Host, before: seq<Event>, trace: seq<Event>, from: nat, expected: Option<string>)
    requires from <= |before| && before <= trace
    requires forall i | from <= i < |before| :: !Fails(host, before[i], expected)
    requires StopsAtFailure(host, trace, |before|, expected)
    ensures StopsAtFailure(host, trace, from, expected)
  {
    hide Fails, CleansUp;
    assert forall i | from <= i < |before| :: trace[i] == before[i];
  }

  lemma StopsThenCleansUp(host: Host, before: seq<Event>, trace: seq<Event>, from: nat, expected: Option<string>)
    requires before <= trace && StopsAtFailure(host, before, from, expected)
    requires forall j | |before| <= j < |trace| :: CleansUp(trace[j].op)
    ensures StopsAtFailure(host, trace, from, expected)
  {
    hide Fails, CleansUp;
    forall i, j | from <= i < j < |trace| && Fails(host, trace[i], expected) ensures CleansUp(trace[j].op) {
      if j < |before| {
        assert trace[i] == before[i] && trace[j] == before[j];
      }
    }
  }

  lemma SmoothStops(host: Host, trace: seq<Event>, from: nat, expected: Option<string>)
    requires forall i | from <= i < |trace| - 1 :: host.Smooth(trace[i], expected)
    ensures StopsAtFailure(host, trace, from, expected)
  {
    hide Host.Smooth, CleansUp;
  }

  /** A probe met the running node and got a version. */
  ghost predicate Answered(e: Event) {
    e.op.Probe? && e.op.process.Some? && e.reply.ok && e.reply.version.Some?
  }

  ghost predicate NodeAnswered(trace: seq<Event>, from: nat) {
    exists i | from <= i < |trace| :: Answered(trace[i])
  }

  ghost predicate NodeReported(host: Host, trace: seq<Event>, from: nat, version: string) {
    exists i | from <= i < |trace| :: host.Reports(trace[i], version)
  }

  /** An answer that gave no reason to fail reports the expected version. */
  lemma AnswerReports(host: Host, e: Event, version: string)
    requires Answered(e) && host.Smooth(e, Some(version))
    ensures host.Reports(e, version)
  {
    var found, expected := host.numbers(e.reply.version.value).value, host.numbers(version).value;
    forall i: nat
      ensures (if i < |found| then found[i] else 0) == (if i < |expected| then expected[i] else 0)
    {
      assert V.Component(found, i) == V.Component(expected, i);
    }
  }

  lemma AnswersReport(host: Host, trace: seq<Event>, from: nat, version: string)
    requires NodeAnswered(trace, from)
    requires forall i | from <= i < |trace| :: host.Smooth(trace[i], Some(version))
    ensures NodeReported(host, trace, from, version)
  {
    var i :| from <= i < |trace| && Answered(trace[i]);
    AnswerReports(host, trace[i], version);
  }

  lemma AnsweredStays(before: seq<Event>, trace: seq<Event>, from: nat, later: nat)
    requires before <= trace && from <= later && NodeAnswered(before, later)
    ensures NodeAnswered(trace, from)
  {
    var i :| later <= i < |before| && Answered(before[i]);
    assert trace[i] == before[i];
  }

  lemma RoughStays(host: Host, before: seq<Event>, trace: seq<Event>, from: nat, expected: Option<string>)
    requires before <= trace && Rough(host, before, from, expected)
    ensures Rough(host, trace, from, expected)
  {
    var i :| from <= i < |before| && !host.Smooth(before[i], expected);
    assert trace[i] == before[i];
  }

  lemma RoughEarlier(host: Host, trace: seq<Event>, later: nat, from: nat, expected: Option<string>)
    requires from <= later && Rough(host, trace, later, expected)
    ensures Rough(host, trace, from, expected)
  {
  }

  lemma RoughLast(host: Host, trace: seq<Event>, from: nat, expected: Option<string>)
    requires from < |trace| && !host.Smooth(trace[|trace| - 1], expected)
    ensures Rough(host, trace, from, expected)
  {
  }

  lemma FailureIsRough(host: Host, from: nat, expected: Option<string>)
    requires SomeFailed(host.trace, from)
    ensures Rough(host, host.trace, from, expected)
  {
    var i :| from <= i < |host.trace| && !host.trace[i].reply.ok;
    assert !host.Smooth(host.trace[i], expected);
  }
}
