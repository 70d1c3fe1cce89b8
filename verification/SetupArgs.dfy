/**
 The command line between the sandbox's helper processes. A plan is printed as arguments by
 one process and parsed by the next one.
 */
module SetupArgs {
  import opened Wrappers
  import opened Cidrs
  import opened CidrText
  import opened RouteTables
  import opened RoutePlans

  datatype NetArgs = NetArgs(
    routes: seq<Ipv4Route>,
    userns: Option<string>,
    netns: Option<string>,
    pasta: Option<string>,
    command: seq<string>)

  const NO_ARGS := NetArgs([], None, None, None, [])

  datatype ArgsError = MissingValue(flag: string) | UnknownFlag(flag: string) | BadPrefix(text: string)

  datatype ParsedArgs = Accepted(args: NetArgs) | Rejected(error: ArgsError)

  /** The effect of one flag with its value. */
  function Accept(acc: NetArgs, flag: string, value: string): ParsedArgs {
    if flag == "--unreachable" then
      (match Parse(value)
       case Err => Rejected(BadPrefix(value))
       case Ok(c) => Accepted(acc.(routes := acc.routes + [Unreachable(c)])))
    else if flag == "--via" then
      (match Parse(value)
       case Err => Rejected(BadPrefix(value))
       case Ok(c) => Accepted(acc.(routes := acc.routes + [ViaGateway(c)])))
    else if flag == "--userns" then Accepted(acc.(userns := Some(value)))
    else if flag == "--netns" then Accepted(acc.(netns := Some(value)))
    else if flag == "--pasta" then Accepted(acc.(pasta := Some(value)))
    else Rejected(UnknownFlag(flag))
  }

  function ParseFrom(acc: NetArgs, args: seq<string>): ParsedArgs
    decreases |args|
  {
    if args == [] then Accepted(acc)
    else if args[0] == "--" then Accepted(acc.(command := args[1..]))
    else if |args| == 1 then Rejected(MissingValue(args[0]))
    else
      match Accept(acc, args[0], args[1])
      case Rejected(e) => Rejected(e)
      case Accepted(next) => ParseFrom(next, args[2..])
  }

  method ParseArgs(args: seq<string>) returns (r: ParsedArgs)
    ensures r == ParseFrom(NO_ARGS, args)
  {
    var out := NO_ARGS;
    var i := 0;
    while i < |args|
      invariant 0 <= i <= |args|
      invariant ParseFrom(out, args[i..]) == ParseFrom(NO_ARGS, args)
    {
      if args[i] == "--" {
        return Accepted(out.(command := args[i + 1..]));
      }
      if i + 1 == |args| { return Rejected(MissingValue(args[i])); }
      assert args[i..][2..] == args[i + 2..];
      match Accept(out, args[i], args[i + 1]) {
        case Rejected(e) => return Rejected(e);
        case Accepted(next) => out := next;
      }
      i := i + 2;
    }
    return Accepted(out);
  }

  function RouteFlag(route: Ipv4Route): string {
    match route
    case Unreachable(_) => "--unreachable"
    case ViaGateway(_) => "--via"
  }

  function RouteArgs(plan: seq<Ipv4Route>): seq<string> {
    if plan == [] then []
    else [RouteFlag(plan[0]), Show(plan[0].cidr)] + RouteArgs(plan[1..])
  }

  method PrintRoutes(plan: seq<Ipv4Route>) returns (args: seq<string>)
    ensures args == RouteArgs(plan)
  {
    args := [];
    for i := 0 to |plan|
      invariant args + RouteArgs(plan[i..]) == RouteArgs(plan)
    {
      assert plan[i..][1..] == plan[i + 1..];
      args := args + [RouteFlag(plan[i]), Show(plan[i].cidr)];
    }
  }

  ghost predicate CanonicalPlan(plan: seq<Ipv4Route>) {
    forall i :: 0 <= i < |plan| ==> Canonical(plan[i].cidr)
  }

  lemma AcceptPrinted(acc: NetArgs, route: Ipv4Route)
    requires Canonical(route.cidr)
    ensures RouteFlag(route) != "--"
    ensures Accept(acc, RouteFlag(route), Show(route.cidr)) == Accepted(acc.(routes := acc.routes + [route]))
  {
    RoundTrip(route.cidr);
    assert RouteFlag(route)[2] in {'u', 'v'};
  }

  function WithRoutes(acc: NetArgs, plan: seq<Ipv4Route>): NetArgs {
    acc.(routes := acc.routes + plan)
  }

  lemma WithRoutesCons(acc: NetArgs, plan: seq<Ipv4Route>)
    requires plan != []
    ensures WithRoutes(WithRoutes(acc, [plan[0]]), plan[1..]) == WithRoutes(acc, plan)
  {
    assert acc.routes + [plan[0]] + plan[1..] == acc.routes + plan;
  }

  lemma RouteArgsCons(plan: seq<Ipv4Route>, rest: seq<string>)
    requires plan != []
    ensures RouteArgs(plan) + rest == [RouteFlag(plan[0]), Show(plan[0].cidr)] + (RouteArgs(plan[1..]) + rest)
  {
  }

  lemma ParsePrintedRoute(acc: NetArgs, route: Ipv4Route, rest: seq<string>)
    requires Canonical(route.cidr)
    ensures ParseFrom(acc, [RouteFlag(route), Show(route.cidr)] + rest) == ParseFrom(WithRoutes(acc, [route]), rest)
  {
    AcceptPrinted(acc, route);
    var args := [RouteFlag(route), Show(route.cidr)] + rest;
    assert args[0] == RouteFlag(route) && args[1] == Show(route.cidr) && args[2..] == rest;
  }

  /** Parsing printed routes adds exactly those routes, in order, and goes on with the rest. */
  lemma {:induction false} ParsePrintedRoutes(acc: NetArgs, plan: seq<Ipv4Route>, rest: seq<string>)
    requires CanonicalPlan(plan)
    ensures ParseFrom(acc, RouteArgs(plan) + rest) == ParseFrom(WithRoutes(acc, plan), rest)
    decreases |plan|
  {
    if plan == [] {
      assert RouteArgs(plan) + rest == rest && WithRoutes(acc, plan) == acc;
    } else {
      var next := WithRoutes(acc, [plan[0]]);
      ParsePrintedRoute(acc, plan[0], RouteArgs(plan[1..]) + rest);
      ParsePrintedRoutes(next, plan[1..], rest);
      RouteArgsCons(plan, rest);
      WithRoutesCons(acc, plan);
    }
  }

  /** Every parsed route is canonical, whatever the arguments were. */
  lemma {:induction false} ParsedIsCanonical(acc: NetArgs, args: seq<string>)
    requires CanonicalPlan(acc.routes)
    ensures var r := ParseFrom(acc, args); r.Accepted? ==> CanonicalPlan(r.args.routes)
    decreases |args|
  {
    if |args| > 1 && args[0] != "--" {
      match Accept(acc, args[0], args[1]) {
        case Rejected(_) =>
        case Accepted(next) => ParsedIsCanonical(next, args[2..]);
      }
    }
  }

  /** What the runner passes to the attach helper, after the mode flag and before `--`. */
  function AttachArgs(pasta: string, plan: seq<Ipv4Route>): seq<string> {
    ["--pasta", pasta] + RouteArgs(plan)
  }

  /** What the attach helper passes to the setup process, after the mode flag. */
  function SetupCommand(netns: string, userns: string, plan: seq<Ipv4Route>): seq<string> {
    ["--netns", netns, "--userns", userns] + RouteArgs(plan)
  }

  lemma ParseFlag(acc: NetArgs, flag: string, value: string, next: NetArgs, rest: seq<string>)
    requires flag != "--" && Accept(acc, flag, value) == Accepted(next)
    ensures ParseFrom(acc, [flag, value] + rest) == ParseFrom(next, rest)
  {
    var args := [flag, value] + rest;
    assert args[0] == flag && args[1] == value && args[2..] == rest;
  }

  lemma ParseCommand(acc: NetArgs, command: seq<string>)
    ensures ParseFrom(acc, ["--"] + command) == Accepted(acc.(command := command))
  {
    var args := ["--"] + command;
    assert args[0] == "--" && args[1..] == command;
  }

  /** The attach helper receives the plan, the pasta binary and the command as they were given. */
  lemma AttachRoundTrip(pasta: string, plan: seq<Ipv4Route>, command: seq<string>)
    requires CanonicalPlan(plan)
    ensures ParseFrom(NO_ARGS, AttachArgs(pasta, plan) + ["--"] + command)
         == Accepted(NetArgs(plan, None, None, Some(pasta), command))
  {
    var rest := ["--"] + command;
    var acc := NetArgs([], None, None, Some(pasta), []);
    assert AttachArgs(pasta, plan) + ["--"] + command == ["--pasta", pasta] + (RouteArgs(plan) + rest);
    ParseFlag(NO_ARGS, "--pasta", pasta, acc, RouteArgs(plan) + rest);
    ParsePrintedRoutes(acc, plan, rest);
    ParseCommand(WithRoutes(acc, plan), command);
    assert [] + plan == plan;
  }

  /** The setup process receives the same plan. */
  lemma SetupRoundTrip(netns: string, userns: string, plan: seq<Ipv4Route>)
    requires CanonicalPlan(plan)
    ensures ParseFrom(NO_ARGS, SetupCommand(netns, userns, plan)) == Accepted(NetArgs(plan, Some(userns), Some(netns), None, []))
  {
    var acc1 := NetArgs([], None, Some(netns), None, []);
    var acc2 := NetArgs([], Some(userns), Some(netns), None, []);
    var rest := ["--userns", userns] + (RouteArgs(plan) + []);
    assert SetupCommand(netns, userns, plan) == ["--netns", netns] + rest;
    ParseFlag(NO_ARGS, "--netns", netns, acc1, rest);
    ParseFlag(acc1, "--userns", userns, acc2, RouteArgs(plan) + []);
    ParsePrintedRoutes(acc2, plan, []);
    assert [] + plan == plan;
  }

  // ---------------------------------------------------------------- the flags

  /** The printed arguments of one route. */
  lemma PrintedRoute(c: Ipv4Cidr)
    ensures RouteArgs([Unreachable(c)]) == ["--unreachable", Show(c)] && RouteArgs([ViaGateway(c)]) == ["--via", Show(c)]
  {
    assert RouteArgs([Unreachable(c)][1..]) == [] && RouteArgs([ViaGateway(c)][1..]) == [];
  }

  lemma {:induction false} RouteArgsConcat(a: seq<Ipv4Route>, b: seq<Ipv4Route>)
    ensures RouteArgs(a + b) == RouteArgs(a) + RouteArgs(b)
    decreases |a|
  {
    if a == [] {
      assert a + b == b;
    } else {
      assert (a + b)[0] == a[0] && (a + b)[1..] == a[1..] + b;
      RouteArgsConcat(a[1..], b);
    }
  }

  /** What each flag does with its value. */
  lemma FlagsDo(acc: NetArgs, value: string)
    ensures Accept(acc, "--userns", value) == Accepted(acc.(userns := Some(value)))
    ensures Accept(acc, "--netns", value) == Accepted(acc.(netns := Some(value)))
    ensures Accept(acc, "--pasta", value) == Accepted(acc.(pasta := Some(value)))
    ensures Parse(value).Ok? ==>
              && Accept(acc, "--unreachable", value) == Accepted(acc.(routes := acc.routes + [Unreachable(Parse(value).value)]))
              && Accept(acc, "--via", value) == Accepted(acc.(routes := acc.routes + [ViaGateway(Parse(value).value)]))
    ensures Parse(value).Err? ==>
              Accept(acc, "--unreachable", value) == Accept(acc, "--via", value) == Rejected(BadPrefix(value))
  {
    if Parse(value).Ok? {
      assert Accept(acc, "--unreachable", value) == Accepted(acc.(routes := acc.routes + [Unreachable(Parse(value).value)]));
    }
  }

  /** Any other flag is rejected, and so is a last flag without a value. */
  lemma OtherArgsAreRejected(acc: NetArgs, flag: string, value: string, rest: seq<string>)
    requires flag != "--"
    ensures flag !in {"--unreachable", "--via", "--userns", "--netns", "--pasta"} ==>
              ParseFrom(acc, [flag, value] + rest) == Rejected(UnknownFlag(flag))
    ensures ParseFrom(acc, [flag]) == Rejected(MissingValue(flag))
  {
    var args := [flag, value] + rest;
    assert args[0] == flag && args[1] == value;
  }

  /** Flags are read two arguments at a time, in order, up to `--`. */
  lemma ReadsPairs(acc: NetArgs, flag: string, value: string, rest: seq<string>)
    requires flag != "--"
    ensures Accept(acc, flag, value).Rejected? ==> ParseFrom(acc, [flag, value] + rest) == Accept(acc, flag, value)
    ensures Accept(acc, flag, value).Accepted? ==>
              ParseFrom(acc, [flag, value] + rest) == ParseFrom(Accept(acc, flag, value).args, rest)
    ensures ParseFrom(acc, ["--"] + rest) == Accepted(acc.(command := rest)) && ParseFrom(acc, []) == Accepted(acc)
  {
    var args := [flag, value] + rest;
    assert args[0] == flag && args[1] == value && args[2..] == rest;
    ParseCommand(acc, rest);
  }
}
