/**
 The two processes that gate the sandbox. The setup process joins the namespaces, waits for
 the device, installs the routes and reports over a pipe; the attach helper reads the
 reports and only then writes the byte that unblocks the sandbox. Every step of either
 process, every partial write and every failure is one transition.
 */
module Handshakes {
  import opened Wrappers
  import opened Cidrs
  import opened NetDefaults
  import opened ByteOrders
  import opened RouteTables
  import opened RoutePlans
  import opened SetupArgs
  import opened Netlinks

  const JOINED := "joined"
  const ROUTED := "routed"
  const JOINED_LINE := "joined\n"
  const ROUTED_LINE := "routed\n"

  /** Everything a setup process ever writes. */
  const PROTOCOL := JOINED_LINE + ROUTED_LINE

  datatype SetupPhase = Joining | ReportingJoined | WaitingForDevice | Installing | ReportingRouted | Holding | Exited

  datatype HelperPhase = AwaitingJoined | SpawningPasta | AwaitingRouted | Unblocking | Unblocked | GivenUp

  /**
   `failed` records that joining, the device or a route failed. `consumed` is everything the
   helper has read so far, `line` the part that belongs to the line it is reading.
   */
  datatype World = World(
    setup: SetupPhase,
    toWrite: string,
    written: string,
    installed: nat,
    table: Table,
    failed: bool,
    helper: HelperPhase,
    unread: string,
    consumed: string,
    line: string)

  /** What does not change: the plan, the routes that were there, the byte order, the interface. */
  datatype Setting = Setting(plan: seq<Ipv4Route>, start: Table, codec: Codec, ifindex: U32)

  ghost predicate Sound(c: Setting) {
    Lawful(c.codec) && CanonicalPlan(c.plan)
  }

  predicate Init(c: Setting, w: World) {
    w == World(Joining, "", "", 0, c.start, false, AwaitingJoined, "", "", "")
  }

  // ---------------------------------------------------------------- the setup process

  predicate Join(w: World, w': World) {
    w.setup == Joining && w' == w.(setup := ReportingJoined, toWrite := JOINED_LINE)
  }

  /** Joining a namespace fails, or the device is not ready in time. */
  predicate FailEarly(w: World, w': World) {
    w.setup in {Joining, WaitingForDevice} && w' == w.(setup := Exited, failed := true)
  }

  /** Some part of the pending report reaches the pipe. */
  predicate WriteSome(w: World, w': World, n: nat) {
    && w.setup in {ReportingJoined, ReportingRouted} && 0 < n <= |w.toWrite|
    && w' == w.(toWrite := w.toWrite[n..], written := w.written + w.toWrite[..n], unread := w.unread + w.toWrite[..n])
  }

  predicate Reported(w: World, w': World) {
    && w.toWrite == ""
    && ((w.setup == ReportingJoined && w' == w.(setup := WaitingForDevice))
        || (w.setup == ReportingRouted && w' == w.(setup := Holding)))
  }

  predicate DeviceReady(w: World, w': World) {
    w.setup == WaitingForDevice && w' == w.(setup := Installing)
  }

  /**
   What the kernel does with a request that it acknowledges: for the main table, it replaces a
   route for the same prefix if the request says replace, and adds a new one if it says create.
   */
  function KernelApply(k: Codec, table: Table, msg: Bytes): Table {
    match Decode(k, msg)
    case Err => table
    case Ok(request) =>
      var needed := if request.route.cidr in table then 0x100 else 0x400;
      if request.table == 254 && HasFlag(request.flags, 0x1) && HasFlag(request.flags, needed)
      then Install(table, request.route) else table
  }

  /** The number of the request after `installed` requests. */
  function Sequence(installed: nat): U32 {
    (installed + 1) % TWO32
  }

  /** The next route is sent, and the reply is an acknowledgement. The sequence number wraps. */
  ghost predicate InstallNext(c: Setting, w: World, w': World, reply: Bytes)
    requires Sound(c)
  {
    && w.setup == Installing && w.installed < |c.plan| && ParseAck(c.codec, reply).Acked?
    && var msg := RouteMessage(c.codec, c.plan[w.installed], c.ifindex, GATEWAY, Sequence(w.installed));
       w' == w.(table := KernelApply(c.codec, w.table, msg), installed := w.installed + 1)
  }

  /** A route is refused or its reply is malformed; nothing is known about the table then. */
  predicate InstallFails(c: Setting, w: World, w': World) {
    && w.setup == Installing && w.installed < |c.plan|
    && w' == w.(setup := Exited, failed := true, table := w'.table)
  }

  predicate AllInstalled(c: Setting, w: World, w': World) {
    w.setup == Installing && w.installed == |c.plan| && w' == w.(setup := ReportingRouted, toWrite := ROUTED_LINE)
  }

  /** Killed, or a report that cannot be written: possible at any time. */
  predicate SetupDies(w: World, w': World) {
    w' == w.(setup := Exited)
  }

  // ---------------------------------------------------------------- the attach helper

  /** The white space of Unicode. */
  predicate IsSpace(ch: char) {
    var n := ch as int;
    || 9 <= n <= 13 || n == 32 || n == 0x85 || n == 0xA0 || n == 0x1680 || 0x2000 <= n <= 0x200A
    || n == 0x2028 || n == 0x2029 || n == 0x202F || n == 0x205F || n == 0x3000
  }

  function TrimEnd(s: string): (r: string)
    ensures r <= s
  {
    if s != "" && IsSpace(s[|s| - 1]) then TrimEnd(s[..|s| - 1]) else s
  }

  predicate EndsLine(s: string) {
    s != "" && s[|s| - 1] == '\n'
  }

  predicate Reading(w: World) {
    w.helper in {AwaitingJoined, AwaitingRouted}
  }

  predicate ReadChar(w: World, w': World) {
    && Reading(w) && w.unread != "" && !EndsLine(w.line)
    && w' == w.(unread := w.unread[1..], consumed := w.consumed + w.unread[..1], line := w.line + w.unread[..1])
  }

  function Wanted(helper: HelperPhase): string {
    if helper == AwaitingJoined then JOINED else ROUTED
  }

  /** The line is complete, by a newline or because the writer is gone: compare it. */
  predicate LineDone(w: World, w': World) {
    && Reading(w) && (EndsLine(w.line) || (w.unread == "" && w.setup == Exited))
    && w' == w.(line := "",
                helper := if TrimEnd(w.line) != Wanted(w.helper) then GivenUp
                          else if w.helper == AwaitingJoined then SpawningPasta else Unblocking)
  }

  predicate PastaSpawned(w: World, w': World) {
    w.helper == SpawningPasta && w' == w.(helper := AwaitingRouted)
  }

  predicate Unblock(w: World, w': World) {
    w.helper == Unblocking && w' == w.(helper := Unblocked)
  }

  /** A failed read, spawn or write, or the helper being killed, before the byte is written. */
  predicate HelperFails(w: World, w': World) {
    w.helper != Unblocked && w' == w.(helper := GivenUp)
  }

  ghost predicate Next(c: Setting, w: World, w': World)
    requires Sound(c)
  {
    || Join(w, w') || FailEarly(w, w') || (exists n :: WriteSome(w, w', n)) || Reported(w, w') || DeviceReady(w, w')
    || (exists reply :: InstallNext(c, w, w', reply)) || InstallFails(c, w, w') || AllInstalled(c, w, w') || SetupDies(w, w')
    || ReadChar(w, w') || LineDone(w, w') || PastaSpawned(w, w') || Unblock(w, w') || HelperFails(w, w')
  }

  /** Any interleaving of the two processes. */
  ghost predicate Behaviour(c: Setting, b: seq<World>)
    requires Sound(c)
  {
    && b != [] && Init(c, b[0])
    && forall i :: 0 < i < |b| ==> Next(c, b[i - 1], b[i])
  }

  // ---------------------------------------------------------------- what every step keeps

  /** How far the report may have got in each phase. */
  ghost predicate Progress(w: World) {
    match w.setup
    case Joining => w.written == ""
    case ReportingJoined => w.written + w.toWrite == JOINED_LINE
    case WaitingForDevice => w.written == JOINED_LINE
    case Installing => w.written == JOINED_LINE
    case ReportingRouted => w.written + w.toWrite == PROTOCOL
    case Holding => w.written == PROTOCOL
    case Exited => true
  }

  /** Nothing beyond the first line is written before every route is in place. */
  ghost predicate Gated(c: Setting, w: World) {
    && w.written <= PROTOCOL
    && w.installed <= |c.plan|
    && (w.failed ==> w.setup == Exited)
    && (!w.failed ==> w.table == Replay(c.start, c.plan[..w.installed]))
    && (|w.written| > |JOINED_LINE| || w.setup in {ReportingRouted, Holding} ==> w.installed == |c.plan| && !w.failed)
  }

  /** The writer is gone and everything it wrote has been read. */
  predicate AtEnd(w: World) {
    w.setup == Exited && w.unread == ""
  }

  ghost predicate Reader(w: World) {
    && w.consumed + w.unread == w.written
    && match w.helper
       case AwaitingJoined => w.consumed == w.line && |w.line| <= |JOINED_LINE|
       case SpawningPasta => w.line == "" && (w.consumed == JOINED_LINE || (w.consumed == JOINED && AtEnd(w)))
       case AwaitingRouted => w.consumed == JOINED_LINE + w.line || (w.consumed == JOINED && w.line == "" && AtEnd(w))
       case Unblocking => |w.consumed| > |JOINED_LINE|
       case Unblocked => |w.consumed| > |JOINED_LINE|
       case GivenUp => true
  }

  ghost predicate Safe(c: Setting, w: World) {
    Progress(w) && Gated(c, w) && Reader(w)
  }

  lemma FlagsAreSet()
    ensures HasFlag(0x505, 0x1) && HasFlag(0x505, 0x100) && HasFlag(0x505, 0x400)
  {
  }

  lemma RequestInstalls(k: Codec, table: Table, msg: Bytes, request: Request)
    requires Decode(k, msg) == Ok(request) && request.table == 254 && request.flags == 0x505
    ensures KernelApply(k, table, msg) == Install(table, request.route)
  {
    FlagsAreSet();
  }

  /** An acknowledged request installs the route it was built from. */
  lemma AckedInstalls(k: Codec, table: Table, route: Ipv4Route, ifindex: U32, gw: U32, sequence: U32)
    requires Lawful(k) && Canonical(route.cidr)
    ensures KernelApply(k, table, RouteMessage(k, route, ifindex, gw, sequence)) == Install(table, route)
  {
    var msg, request := RouteMessage(k, route, ifindex, gw, sequence), Meant(route, ifindex, gw, sequence);
    assert Decode(k, msg) == Ok(request) by { RoundTrip(k, route, ifindex, gw, sequence); }
    RequestInstalls(k, table, msg, request);
  }

  lemma {:induction false} ReplaySnoc(table: Table, plan: seq<Ipv4Route>, i: nat)
    requires i < |plan|
    ensures Replay(table, plan[..i + 1]) == Install(Replay(table, plan[..i]), plan[i])
  {
    assert plan[..i + 1] == plan[..i] + [plan[i]];
    ReplayConcat(table, plan[..i], [plan[i]]);
    assert Replay(Replay(table, plan[..i]), [plan[i]]) == Replay(Install(Replay(table, plan[..i]), plan[i]), []);
  }

  lemma InstallExtends(c: Setting, w: World, w': World, reply: Bytes)
    requires Sound(c) && InstallNext(c, w, w', reply) && w.table == Replay(c.start, c.plan[..w.installed])
    ensures w'.table == Replay(c.start, c.plan[..w'.installed])
  {
    AckedInstalls(c.codec, w.table, c.plan[w.installed], c.ifindex, GATEWAY, Sequence(w.installed));
    ReplaySnoc(c.start, c.plan, w.installed);
  }

  lemma InstallKeeps(c: Setting, w: World, w': World, reply: Bytes)
    requires Sound(c) && Safe(c, w) && InstallNext(c, w, w', reply)
    ensures Safe(c, w')
  {
    InstallExtends(c, w, w', reply);
  }

  lemma WriteKeeps(c: Setting, w: World, w': World, n: nat)
    requires Safe(c, w) && WriteSome(w, w', n)
    ensures Safe(c, w')
  {
    assert w'.written + w'.toWrite == w.written + w.toWrite;
    assert w'.written <= w.written + w.toWrite <= PROTOCOL;
    assert w'.consumed + w'.unread == w'.written;
  }

  lemma SetupKeeps(c: Setting, w: World, w': World)
    requires Safe(c, w)
    requires Join(w, w') || FailEarly(w, w') || Reported(w, w') || DeviceReady(w, w')
          || InstallFails(c, w, w') || AllInstalled(c, w, w') || SetupDies(w, w')
    ensures Safe(c, w')
  {
  }

  /** Seven characters of the protocol are its first line. */
  lemma FirstLineEnds(s: string)
    ensures s <= PROTOCOL && |s| == |JOINED_LINE| ==> EndsLine(s)
  {
    assert PROTOCOL[6] == '\n';
  }

  lemma ReadKeeps(c: Setting, w: World, w': World)
    requires Safe(c, w) && ReadChar(w, w')
    ensures Safe(c, w')
  {
    assert w.unread == w.unread[..1] + w.unread[1..];
    assert w'.consumed + w'.unread == w.consumed + (w.unread[..1] + w.unread[1..]);
    FirstLineEnds(w.line);
    assert w.consumed <= w.written <= PROTOCOL;
    if w.helper == AwaitingRouted {
      assert JOINED_LINE + w.line + w.unread[..1] == JOINED_LINE + (w.line + w.unread[..1]);
    }
  }

  lemma LineKeeps(c: Setting, w: World, w': World)
    requires Safe(c, w) && LineDone(w, w')
    ensures Safe(c, w')
  {
    if TrimEnd(w.line) == Wanted(w.helper) {
      var n := |w.line|;
      assert n >= |Wanted(w.helper)| == 6;
      if w.helper == AwaitingJoined {
        assert w.line == w.written[..n] == PROTOCOL[..n];
        if n == 6 {
          assert w.line == JOINED && w.line[5] == PROTOCOL[5];
        } else {
          assert w.line == JOINED_LINE;
        }
      }
    }
  }

  lemma HelperKeeps(c: Setting, w: World, w': World)
    requires Safe(c, w)
    requires PastaSpawned(w, w') || Unblock(w, w') || HelperFails(w, w')
    ensures Safe(c, w')
  {
    assert JOINED_LINE + "" == JOINED_LINE;
  }

  lemma NextKeeps(c: Setting, w: World, w': World)
    requires Sound(c) && Safe(c, w) && Next(c, w, w')
    ensures Safe(c, w')
  {
    if n :| WriteSome(w, w', n) {
      WriteKeeps(c, w, w', n);
    } else if reply :| InstallNext(c, w, w', reply) {
      InstallKeeps(c, w, w', reply);
    } else if ReadChar(w, w') {
      ReadKeeps(c, w, w');
    } else if LineDone(w, w') {
      LineKeeps(c, w, w');
    } else if PastaSpawned(w, w') || Unblock(w, w') || HelperFails(w, w') {
      HelperKeeps(c, w, w');
    } else {
      SetupKeeps(c, w, w');
    }
  }

  lemma {:induction false} BehaviourIsSafe(c: Setting, b: seq<World>, i: nat)
    requires Sound(c) && Behaviour(c, b) && i < |b|
    ensures Safe(c, b[i])
    decreases i
  {
    if i == 0 {
      assert c.plan[..0] == [];
    } else {
      BehaviourIsSafe(c, b, i - 1);
      NextKeeps(c, b[i - 1], b[i]);
    }
  }

  /**
   In every interleaving the sandbox is unblocked only after every route of the plan was
   acknowledged, with exactly the plan in the table, and never after a failure.
   */
  lemma UnblockedMeansRouted(c: Setting, b: seq<World>, i: nat)
    requires Sound(c) && Behaviour(c, b) && i < |b| && b[i].helper == Unblocked
    ensures b[i].installed == |c.plan| && !b[i].failed
    ensures b[i].table == Replay(c.start, c.plan)
  {
    BehaviourIsSafe(c, b, i);
    assert c.plan[..|c.plan|] == c.plan;
  }

  // ---------------------------------------------------------------- what a line does

  /** The characters that Unicode calls white space, one by one. */
  predicate WhiteSpace(ch: char) {
    || ch as int in {9, 10, 11, 12, 13, 32, 0x85, 0xA0, 0x1680, 0x2028, 0x2029, 0x202F, 0x205F, 0x3000}
    || ch as int in {0x2000, 0x2001, 0x2002, 0x2003, 0x2004, 0x2005, 0x2006, 0x2007, 0x2008, 0x2009, 0x200A}
  }

  predicate Blank(s: string) {
    forall i :: 0 <= i < |s| ==> WhiteSpace(s[i])
  }

  /** Ends in something other than white space. */
  predicate Trimmed(s: string) {
    s == "" || !WhiteSpace(s[|s| - 1])
  }

  lemma {:induction false} TrimEndOf(text: string, tail: string)
    requires Trimmed(text) && Blank(tail)
    ensures TrimEnd(text + tail) == text
    decreases |tail|
  {
    var s := text + tail;
    if tail == "" {
      assert s == text;
    } else {
      assert s[|s| - 1] == tail[|tail| - 1];
      assert s[..|s| - 1] == text + tail[..|tail| - 1];
      TrimEndOf(text, tail[..|tail| - 1]);
    }
  }

  /**
   The first report advances the helper exactly if it is `joined`, the second one exactly if it
   is `routed`, whatever white space follows; any other line makes it give up.
   */
  lemma LineDecides(w: World, w': World, text: string, tail: string)
    requires LineDone(w, w') && w.line == text + tail && Trimmed(text) && Blank(tail)
    ensures w.helper == AwaitingJoined ==> w'.helper == if text == "joined" then SpawningPasta else GivenUp
    ensures w.helper == AwaitingRouted ==> w'.helper == if text == "routed" then Unblocking else GivenUp
  {
    TrimEndOf(text, tail);
  }

  lemma JoinedLineAdvances(w: World, w': World)
    requires LineDone(w, w') && w.helper == AwaitingJoined && w.line == "joined\n"
    ensures w'.helper == SpawningPasta
  {
    TrimJoined();
  }

  lemma RoutedLineAdvances(w: World, w': World)
    requires LineDone(w, w') && w.helper == AwaitingRouted && w.line == "routed\n"
    ensures w'.helper == Unblocking
  {
    TrimRouted();
  }

  // ---------------------------------------------------------------- a successful setup

  /** A behaviour that begins in `w` and ends in `w'`, not necessarily at the start of the processes. */
  ghost predicate IsTrace(c: Setting, b: seq<World>, w: World, w': World)
    requires Sound(c)
  {
    && b != [] && b[0] == w && b[|b| - 1] == w'
    && forall i :: 0 < i < |b| ==> Next(c, b[i - 1], b[i])
  }

  ghost predicate Leads(c: Setting, w: World, w': World)
    requires Sound(c)
  {
    exists b :: IsTrace(c, b, w, w')
  }

  lemma LeadsNowhere(c: Setting, w: World)
    requires Sound(c)
    ensures Leads(c, w, w)
  {
    assert IsTrace(c, [w], w, w);
  }

  lemma LeadsStep(c: Setting, w: World, x: World, y: World)
    requires Sound(c) && Leads(c, w, x) && Next(c, x, y)
    ensures Leads(c, w, y)
  {
    var b :| IsTrace(c, b, w, x);
    assert IsTrace(c, b + [y], w, y);
  }

  lemma ReadsOne(c: Setting, start: World, w: World, w': World)
    requires Sound(c) && Leads(c, start, w) && ReadChar(w, w')
    ensures Leads(c, start, w')
  {
    LeadsStep(c, start, w, w');
  }

  function ReadAll(w: World): World {
    w.(unread := "", consumed := w.consumed + w.unread, line := w.line + w.unread)
  }

  function ReadNext(w: World): World
    requires w.unread != ""
  {
    w.(unread := w.unread[1..], consumed := w.consumed + w.unread[..1], line := w.line + w.unread[..1])
  }

  lemma ReadNextThenAll(w: World)
    requires w.unread != ""
    ensures ReadAll(ReadNext(w)) == ReadAll(w)
  {
    assert w.unread[..1] + w.unread[1..] == w.unread;
    assert w.consumed + w.unread[..1] + w.unread[1..] == w.consumed + w.unread;
    assert w.line + w.unread[..1] + w.unread[1..] == w.line + w.unread;
  }

  /** The helper reads what is left of a line. */
  lemma {:induction false} ReadsLine(c: Setting, start: World, w: World)
    requires Sound(c) && Leads(c, start, w) && Reading(w) && (w.unread != "" ==> !EndsLine(w.line))
    requires forall i :: 0 <= i < |w.unread| - 1 ==> w.unread[i] != '\n'
    ensures Leads(c, start, ReadAll(w))
    decreases |w.unread|
  {
    if w.unread == "" {
      assert ReadAll(w) == w;
    } else {
      ReadsOne(c, start, w, ReadNext(w));
      ReadsLine(c, start, ReadNext(w));
      ReadNextThenAll(w);
    }
  }

  /** The setup process installs what is left of the plan, given an acknowledgement for each route. */
  lemma {:induction false} InstallsRest(c: Setting, start: World, w: World, replies: seq<Bytes>) returns (w': World)
    requires Sound(c) && Leads(c, start, w) && w.setup == Installing && w.installed <= |c.plan| == |replies|
    requires forall i :: 0 <= i < |replies| ==> ParseAck(c.codec, replies[i]).Acked?
    ensures Leads(c, start, w') && w' == w.(installed := |c.plan|, table := w'.table)
    decreases |c.plan| - w.installed
  {
    if w.installed == |c.plan| {
      w' := w;
    } else {
      var msg := RouteMessage(c.codec, c.plan[w.installed], c.ifindex, GATEWAY, Sequence(w.installed));
      var x := w.(table := KernelApply(c.codec, w.table, msg), installed := w.installed + 1);
      assert InstallNext(c, w, x, replies[w.installed]);
      LeadsStep(c, start, w, x);
      w' := InstallsRest(c, start, x, replies);
    }
  }

  /** The setup process writes its whole pending report and goes on. */
  lemma ReportsAll(c: Setting, start: World, w: World, w': World)
    requires Sound(c) && Leads(c, start, w) && w.toWrite != "" && w.setup in {ReportingJoined, ReportingRouted}
    requires w' == w.(toWrite := "", written := w.written + w.toWrite, unread := w.unread + w.toWrite,
                      setup := if w.setup == ReportingJoined then WaitingForDevice else Holding)
    ensures Leads(c, start, w')
  {
    var x := w.(toWrite := "", written := w.written + w.toWrite, unread := w.unread + w.toWrite);
    assert w.toWrite[..|w.toWrite|] == w.toWrite && w.toWrite[|w.toWrite|..] == "";
    assert WriteSome(w, x, |w.toWrite|);
    LeadsStep(c, start, w, x);
    LeadsStep(c, start, x, w');
  }

  /** From the start until the helper has read the first report and spawned pasta. */
  lemma Joins(c: Setting, w: World)
    requires Sound(c) && Init(c, w)
    ensures Leads(c, w, w.(setup := WaitingForDevice, written := "joined\n", consumed := "joined\n", helper := AwaitingRouted))
  {
    LeadsNowhere(c, w);
    var w1 := w.(setup := ReportingJoined, toWrite := "joined\n");
    LeadsStep(c, w, w, w1);
    var w2 := w1.(setup := WaitingForDevice, toWrite := "", written := "joined\n", unread := "joined\n");
    assert "" + "joined\n" == "joined\n";
    ReportsAll(c, w, w1, w2);
    ReadsLine(c, w, w2);
    var w3 := w2.(unread := "", consumed := "joined\n", line := "joined\n");
    FinishesJoined(c, w, w3);
  }

  lemma FinishesJoined(c: Setting, start: World, w: World)
    requires Sound(c) && Leads(c, start, w) && w.helper == AwaitingJoined && w.line == "joined\n"
    ensures Leads(c, start, w.(line := "", helper := AwaitingRouted))
  {
    var x := w.(line := "", helper := SpawningPasta);
    assert EndsLine(w.line);
    TrimJoined();
    LeadsStep(c, start, w, x);
    LeadsStep(c, start, x, w.(line := "", helper := AwaitingRouted));
  }

  lemma FinishesRouted(c: Setting, start: World, w: World)
    requires Sound(c) && Leads(c, start, w) && w.helper == AwaitingRouted && w.line == "routed\n"
    ensures Leads(c, start, w.(line := "", helper := Unblocked))
  {
    var x := w.(line := "", helper := Unblocking);
    assert EndsLine(w.line);
    TrimRouted();
    LeadsStep(c, start, w, x);
    LeadsStep(c, start, x, w.(line := "", helper := Unblocked));
  }

  lemma TrimJoined()
    ensures TrimEnd("joined\n") == "joined"
  {
    var text, tail := "joined", "\n";
    assert text[5] == 'd' && tail[0] == '\n';
    TrimEndOf(text, tail);
    assert text + tail == "joined\n";
  }

  lemma TrimRouted()
    ensures TrimEnd("routed\n") == "routed"
  {
    var text, tail := "routed", "\n";
    assert text[5] == 'd' && tail[0] == '\n';
    TrimEndOf(text, tail);
    assert text + tail == "routed\n";
  }

  /** From there, with an acknowledgement for each route, until the sandbox is unblocked. */
  lemma Routes(c: Setting, start: World, w: World, replies: seq<Bytes>) returns (w': World)
    requires Sound(c) && Leads(c, start, w) && |replies| == |c.plan|
    requires forall i :: 0 <= i < |replies| ==> ParseAck(c.codec, replies[i]).Acked?
    requires w.setup == WaitingForDevice && w.installed == 0 && w.helper == AwaitingRouted
    requires w.unread == "" && w.line == "" && w.toWrite == ""
    ensures Leads(c, start, w') && w'.helper == Unblocked && w'.installed == |c.plan| && w'.failed == w.failed
  {
    var w1 := w.(setup := Installing);
    LeadsStep(c, start, w, w1);
    var w2 := InstallsRest(c, start, w1, replies);
    var w3 := w2.(setup := ReportingRouted, toWrite := "routed\n");
    LeadsStep(c, start, w2, w3);
    var w4 := w3.(setup := Holding, toWrite := "", written := w3.written + "routed\n", unread := "routed\n");
    assert w3.unread + "routed\n" == "routed\n";
    ReportsAll(c, start, w3, w4);
    ReadsLine(c, start, w4);
    var w5 := w4.(unread := "", consumed := w4.consumed + "routed\n", line := "routed\n");
    assert w4.line + w4.unread == "routed\n";
    FinishesRouted(c, start, w5);
    w' := w5.(line := "", helper := Unblocked);
  }

  /**
   A setup in which nothing fails unblocks the sandbox: for every list of acknowledgements, one
   for each route, there is a behaviour that ends unblocked with every route installed.
   */
  lemma SuccessUnblocks(c: Setting, replies: seq<Bytes>) returns (b: seq<World>)
    requires Sound(c) && |replies| == |c.plan|
    requires forall i :: 0 <= i < |replies| ==> ParseAck(c.codec, replies[i]).Acked?
    ensures Behaviour(c, b)
    ensures var last := b[|b| - 1];
            last.helper == Unblocked && last.installed == |c.plan| && !last.failed && last.table == Replay(c.start, c.plan)
  {
    var w := World(Joining, "", "", 0, c.start, false, AwaitingJoined, "", "", "");
    Joins(c, w);
    var joined := w.(setup := WaitingForDevice, written := "joined\n", consumed := "joined\n", helper := AwaitingRouted);
    var w' := Routes(c, w, joined, replies);
    b :| IsTrace(c, b, w, w');
    assert Behaviour(c, b);
    UnblockedMeansRouted(c, b, |b| - 1);
  }

  /** Every failure is possible: the setup process may die at any time, the helper until it has unblocked. */
  lemma FailuresArePossible(c: Setting, w: World)
    requires Sound(c)
    ensures Next(c, w, w.(setup := Exited))
    ensures w.helper != Unblocked ==> Next(c, w, w.(helper := GivenUp))
    ensures w.setup == Joining || w.setup == WaitingForDevice ==> Next(c, w, w.(setup := Exited, failed := true))
    ensures w.setup == Installing && w.installed < |c.plan| ==>
              forall t: Table :: Next(c, w, w.(setup := Exited, failed := true, table := t))
  {
  }

  /** A report may reach the pipe in any pieces. */
  lemma WritesMayBePartial(c: Setting, w: World, n: nat)
    requires Sound(c) && (w.setup == ReportingJoined || w.setup == ReportingRouted) && 0 < n <= |w.toWrite|
    ensures Next(c, w, w.(toWrite := w.toWrite[n..], written := w.written + w.toWrite[..n], unread := w.unread + w.toWrite[..n]))
  {
    assert WriteSome(w, w.(toWrite := w.toWrite[n..], written := w.written + w.toWrite[..n], unread := w.unread + w.toWrite[..n]), n);
  }

  // ---------------------------------------------------------------- end to end

  /**
   From the policy to the running sandbox: the plan is printed for the attach helper, parsed
   there, printed for the setup process, parsed again, sent to the kernel message by message.
   Whatever the interleaving, once the sandbox is unblocked the kernel sends an address to
   the gateway exactly if the policy permits it.
   */
  lemma SandboxEnforcesPolicy(policy: NetworkPolicy, hosts: seq<U32>, pasta: string, command: seq<string>,
                              netns: string, userns: string, helper: NetArgs, setup: NetArgs,
                              c: Setting, b: seq<World>, i: nat, a: U32)
    requires RoutePlans.WellFormed(policy)
    requires ParseFrom(NO_ARGS, AttachArgs(pasta, RoutePlan(policy, hosts)) + ["--"] + command) == Accepted(helper)
    requires ParseFrom(NO_ARGS, SetupCommand(netns, userns, helper.routes)) == Accepted(setup)
    requires c.plan == setup.routes && (forall k :: k in c.start ==> SetByPasta(k)) && Sound(c)
    requires Behaviour(c, b) && i < |b| && b[i].helper == Unblocked
    ensures helper.command == command && helper.pasta == Some(pasta)
    ensures Destination(b[i].table, a) == Gateway <==> Permitted(policy, hosts, a)
  {
    var plan := RoutePlan(policy, hosts);
    PlanIsPrintable(policy, hosts);
    AttachRoundTrip(pasta, plan, command);
    SetupRoundTrip(netns, userns, plan);
    UnblockedMeansRouted(c, b, i);
    PlanEnforcesPolicy(c.start, policy, hosts, a);
  }

  lemma PlanIsPrintable(policy: NetworkPolicy, hosts: seq<U32>)
    requires RoutePlans.WellFormed(policy)
    ensures CanonicalPlan(RoutePlan(policy, hosts))
  {
    var denied, allowed := Denied(policy, hosts), Allowed(policy);
    var plan := RoutePlan(policy, hosts);
    forall i | 0 <= i < |plan| ensures Canonical(plan[i].cidr) {
      if i < |denied| {
        assert plan[i].cidr == denied[i];
      } else {
        assert plan[i].cidr == allowed[i - |denied|];
      }
      PlanIsCanonical(policy, hosts, plan[i].cidr);
    }
  }
}
