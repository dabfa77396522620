/**
 * The decisions main makes around the bookkeeping core: the getopt loop and
 * the transport default, the outcome of the connection steps, the wait for
 * the directory phase, and the mapping from outcome to exit code. Host
 * resolution, transport creation and connection are external calls; only
 * whether each succeeded enters the model.
 */
module LsCli {
  import opened LsModel

  /** One option as getopt delivers it; the argument of -p and -w is what atoi made of it. */
  datatype Opt =
    | HostOpt(host: string)
    | PortOpt(port: int)
    | ListOpt
    | VerboseOpt
    | XprtOpt(xprt: string)
    | WaitOpt(secs: int)
    | BadOpt   // an unknown option or a missing argument

  datatype Config = Config(hostname: string, port: nat, mode: Mode, xprt: string, waitSecs: int)

  /** LDMS_DEFAULT_PORT, the port the usage text names. */
  const DefaultPort: nat := 50000
  const DefaultWaitSecs: int := 10

  /** port_no is a short: the connection uses the low 16 bits of what atoi returned. */
  function PortBits(n: int): (r: nat)
    ensures r < 0x1_0000
    ensures (r - n) % 0x1_0000 == 0
  {
    n % 0x1_0000
  }

  // Reference values: the last occurrence of an option wins.

  function LastHost(args: seq<Opt>): string
    decreases |args|
  {
    if args == [] then "localhost"
    else
      var n := |args| - 1;
      if args[n].HostOpt? then args[n].host else LastHost(args[..n])
  }

  function LastPort(args: seq<Opt>): nat
    decreases |args|
  {
    if args == [] then DefaultPort
    else
      var n := |args| - 1;
      if args[n].PortOpt? then PortBits(args[n].port) else LastPort(args[..n])
  }

  function LastWait(args: seq<Opt>): int
    decreases |args|
  {
    if args == [] then DefaultWaitSecs
    else
      var n := |args| - 1;
      if args[n].WaitOpt? then args[n].secs else LastWait(args[..n])
  }

  function LastXprt(args: seq<Opt>): Option<string>
    decreases |args|
  {
    if args == [] then None
    else
      var n := |args| - 1;
      if args[n].XprtOpt? then Some(args[n].xprt) else LastXprt(args[..n])
  }

  function VerboseCount(args: seq<Opt>): nat
    decreases |args|
  {
    if args == [] then 0
    else
      var n := |args| - 1;
      VerboseCount(args[..n]) + (if args[n] == VerboseOpt then 1 else 0)
  }

  predicate HasHost(args: seq<Opt>)
  {
    exists i :: 0 <= i < |args| && args[i].HostOpt?
  }

  /** The transport while options are read: -x sets it, -h turns "local" into "sock". */
  function XprtDuringParse(args: seq<Opt>): string
    decreases |args|
  {
    if args == [] then "local"
    else
      var n := |args| - 1;
      var prev := XprtDuringParse(args[..n]);
      match args[n]
      case HostOpt(_) => if prev == "local" then "sock" else prev
      case XprtOpt(x) => x
      case _ => prev
  }

  /** After the loop: a host other than localhost never keeps the local transport. */
  function SelectTransport(hostname: string, xprt: string): string
  {
    if hostname != "localhost" && xprt == "local" then "sock" else xprt
  }

  function Transport(args: seq<Opt>): string
  {
    SelectTransport(LastHost(args), XprtDuringParse(args))
  }

  /** How each reference value moves when one more option is read. */
  lemma ParseStep(args: seq<Opt>, i: nat)
    requires i < |args|
    ensures var pre, o := args[..i], args[i];
      && LastHost(args[..i + 1]) == (if o.HostOpt? then o.host else LastHost(pre))
      && LastPort(args[..i + 1]) == (if o.PortOpt? then PortBits(o.port) else LastPort(pre))
      && LastWait(args[..i + 1]) == (if o.WaitOpt? then o.secs else LastWait(pre))
      && VerboseCount(args[..i + 1]) == VerboseCount(pre) + (if o == VerboseOpt then 1 else 0)
      && XprtDuringParse(args[..i + 1]) == (match o
           case HostOpt(_) => if XprtDuringParse(pre) == "local" then "sock" else XprtDuringParse(pre)
           case XprtOpt(x) => x
           case _ => XprtDuringParse(pre))
      && (ListOpt in args[..i + 1] <==> ListOpt in pre || o == ListOpt)
      && (BadOpt in args[..i + 1] <==> BadOpt in pre || o == BadOpt)
  {
    assert args[..i + 1][..i] == args[..i];
    assert args[..i + 1] == args[..i] + [args[i]];
  }

  /** The getopt loop of main and the transport fix-up after it; a bad option is a usage failure. */
  method ParseOptions(args: seq<Opt>) returns (r: Option<Config>)
    ensures r.None? <==> BadOpt in args
    ensures r.Some? ==> r.value == Config(LastHost(args), LastPort(args),
                                          Mode(VerboseCount(args), ListOpt in args),
                                          Transport(args), LastWait(args))
  {
    var hostname := "localhost";
    var port := DefaultPort;
    var longFormat := false;
    var verbose := 0;
    var xprt := "local";
    var waitSecs := DefaultWaitSecs;
    var i := 0;
    while i < |args|
      invariant 0 <= i <= |args|
      invariant BadOpt !in args[..i]
      invariant hostname == LastHost(args[..i]) && port == LastPort(args[..i])
      invariant waitSecs == LastWait(args[..i]) && verbose == VerboseCount(args[..i])
      invariant longFormat == (ListOpt in args[..i])
      invariant xprt == XprtDuringParse(args[..i])
    {
      ParseStep(args, i);
      match args[i] {
        case HostOpt(h) =>
          hostname := h;
          if xprt == "local" {
            xprt := "sock";
          }
        case PortOpt(p) => port := PortBits(p);
        case ListOpt => longFormat := true;
        case VerboseOpt => verbose := verbose + 1;
        case XprtOpt(x) => xprt := x;
        case WaitOpt(w) => waitSecs := w;
        case BadOpt => return None;
      }
      i := i + 1;
    }
    assert args[..i] == args;
    if hostname != "localhost" && xprt == "local" {
      xprt := "sock";
    }
    r := Some(Config(hostname, port, Mode(verbose, longFormat), xprt, waitSecs));
  }

  lemma {:induction false} XprtWithoutExplicit(args: seq<Opt>)
    requires LastXprt(args).None?
    ensures XprtDuringParse(args) == (if HasHost(args) then "sock" else "local")
  {
    if args != [] {
      var n := |args| - 1;
      XprtWithoutExplicit(args[..n]);
      if HasHost(args) && !args[n].HostOpt? {
        var i :| 0 <= i < |args| && args[i].HostOpt?;
        assert args[..n][i] == args[i];
      }
      if HasHost(args[..n]) {
        var i :| 0 <= i < n && args[..n][i].HostOpt?;
        assert args[i].HostOpt?;
      }
    }
  }

  lemma {:induction false} XprtExplicit(args: seq<Opt>, v: string)
    requires LastXprt(args) == Some(v) && v != "local"
    ensures XprtDuringParse(args) == v
  {
    var n := |args| - 1;
    if !args[n].XprtOpt? {
      XprtExplicit(args[..n], v);
    }
  }

  lemma {:induction false} XprtWithoutHost(args: seq<Opt>)
    requires !HasHost(args)
    ensures XprtDuringParse(args) == (if LastXprt(args).Some? then LastXprt(args).value else "local")
    ensures LastHost(args) == "localhost"
  {
    if args != [] {
      var n := |args| - 1;
      forall i | 0 <= i < n ensures !args[..n][i].HostOpt? {
        assert args[..n][i] == args[i];
      }
      XprtWithoutHost(args[..n]);
    }
  }

  /**
   * The transport default: "local" unless -x names another; -h switches an
   * unnamed or "local" transport to "sock"; a named non-local transport is
   * always kept, and a host other than localhost never runs over "local".
   */
  lemma TransportChoice(args: seq<Opt>)
    ensures !HasHost(args) ==> Transport(args) == (if LastXprt(args).Some? then LastXprt(args).value else "local")
    ensures HasHost(args) && LastXprt(args).None? ==> Transport(args) == "sock"
    ensures LastXprt(args).Some? && LastXprt(args).value != "local" ==> Transport(args) == LastXprt(args).value
    ensures LastHost(args) != "localhost" ==> Transport(args) != "local"
  {
    if !HasHost(args) {
      XprtWithoutHost(args);
    }
    if LastXprt(args).None? {
      XprtWithoutExplicit(args);
    }
    if LastXprt(args).Some? && LastXprt(args).value != "local" {
      XprtExplicit(args, LastXprt(args).value);
    }
  }

  // ---------------------------------------------------------------------
  // Connection

  /** Whether each external connection step succeeded (connectRet is ldms_connect's return). */
  datatype Env = Env(resolved: bool, inet: bool, xprtCreated: bool, connectRet: int)

  /** The checks of main between option parsing and the directory request. */
  function ConnectStop(env: Env): (r: Option<Stop>)
    ensures r == None <==> env.resolved && env.inet && env.xprtCreated && env.connectRet == 0
    ensures r == Some(ConnectFailed) <==> env.resolved && env.inet && env.xprtCreated && env.connectRet != 0
    ensures r.Some? ==> r.value in {Usage, TransportCreateFailed, ConnectFailed}
  {
    if !env.resolved || !env.inet then Some(Usage)
    else if !env.xprtCreated then Some(TransportCreateFailed)
    else if env.connectRet != 0 then Some(ConnectFailed)
    else None
  }

  /** Remote mode: a directory request refused synchronously ends the run. */
  function DirRequestStop(dirRet: int): (r: Option<Stop>)
    ensures r.Some? <==> dirRet != 0
    ensures r.Some? ==> r.value == DirRequestFailed
  {
    if dirRet != 0 then Some(DirRequestFailed) else None
  }

  // ---------------------------------------------------------------------
  // Directory wait

  /** pthread_cond_timedwait's result for a deadline that has passed (Linux). */
  const ETIMEDOUT: int := 110

  /** One return from the timed wait: its result and whether dir_done was set by then. */
  datatype Wake = Wake(ret: int, dirDone: bool)

  datatype WaitVerdict = Proceed | ReportTimeout | StillWaiting

  /**
   * The wait as written: keep waiting while dir_done is clear, whatever the
   * wait returned; afterwards a non-zero last result reports a timeout.
   * StillWaiting means the loop has not left after the given wakes.
   */
  function WaitAsWritten(dirDone: bool, ret: int, wakes: seq<Wake>): WaitVerdict
    decreases |wakes|
  {
    if dirDone then (if ret != 0 then ReportTimeout else Proceed)
    else if wakes == [] then StillWaiting
    else WaitAsWritten(wakes[0].dirDone, wakes[0].ret, wakes[1..])
  }

  /** The wait as evidently intended: leave the loop at the first non-zero result. */
  function WaitFixed(dirDone: bool, ret: int, wakes: seq<Wake>): WaitVerdict
    decreases |wakes|
  {
    if dirDone || ret != 0 then (if ret != 0 then ReportTimeout else Proceed)
    else if wakes == [] then StillWaiting
    else WaitFixed(wakes[0].dirDone, wakes[0].ret, wakes[1..])
  }

  /**
   * The directory wait of main as written. ret enters the loop as 0, the
   * result of the connect or directory call before it.
   */
  method AwaitDirectory(dirDone0: bool, wakes: seq<Wake>) returns (v: WaitVerdict)
    ensures v == WaitAsWritten(dirDone0, 0, wakes)
    ensures dirDone0 ==> v == Proceed
  {
    var ret := 0;
    var dirDone := dirDone0;
    var i := 0;
    while !dirDone && i < |wakes|
      invariant 0 <= i <= |wakes|
      invariant WaitAsWritten(dirDone, ret, wakes[i..]) == WaitAsWritten(dirDone0, 0, wakes)
    {
      assert wakes[i..][1..] == wakes[i + 1..];
      ret := wakes[i].ret;
      dirDone := wakes[i].dirDone;
      i := i + 1;
    }
    v := if !dirDone then StillWaiting else if ret != 0 then ReportTimeout else Proceed;
  }

  /** The directory wait with the missing exit on a timed-out wait. */
  method AwaitDirectoryFixed(dirDone0: bool, wakes: seq<Wake>) returns (v: WaitVerdict)
    ensures v == WaitFixed(dirDone0, 0, wakes)
    ensures dirDone0 ==> v == Proceed
  {
    var ret := 0;
    var dirDone := dirDone0;
    var i := 0;
    while !dirDone && ret == 0 && i < |wakes|
      invariant 0 <= i <= |wakes|
      invariant WaitFixed(dirDone, ret, wakes[i..]) == WaitFixed(dirDone0, 0, wakes)
    {
      assert wakes[i..][1..] == wakes[i + 1..];
      ret := wakes[i].ret;
      dirDone := wakes[i].dirDone;
      i := i + 1;
    }
    v := if ret != 0 then ReportTimeout else if dirDone then Proceed else StillWaiting;
  }

  /** A server that never answers: every wait times out and dir_done stays clear. */
  function Silence(n: nat): (r: seq<Wake>)
    ensures |r| == n && forall i :: 0 <= i < n ==> r[i] == Wake(ETIMEDOUT, false)
  {
    seq(n, _ => Wake(ETIMEDOUT, false))
  }

  /** As written, the wait for a silent server never ends, however many timeouts it sees. */
  lemma {:induction false} SilentServerNeverTimesOut(ret: int, n: nat)
    decreases n
    ensures WaitAsWritten(false, ret, Silence(n)) == StillWaiting
  {
    if n > 0 {
      assert Silence(n)[1..] == Silence(n - 1);
      SilentServerNeverTimesOut(ETIMEDOUT, n - 1);
    }
  }

  /**
   * As written, an answer that arrives after the deadline still ends in a
   * timeout report: the wake that finds dir_done set also returned ETIMEDOUT.
   */
  lemma LateAnswerReportedAsTimeout()
    ensures WaitAsWritten(false, 0, [Wake(ETIMEDOUT, false), Wake(ETIMEDOUT, true)]) == ReportTimeout
  {
    var wakes := [Wake(ETIMEDOUT, false), Wake(ETIMEDOUT, true)];
    assert wakes[1..] == [Wake(ETIMEDOUT, true)] && wakes[1..][1..] == [];
    calc {
      WaitAsWritten(false, 0, wakes);
      WaitAsWritten(false, ETIMEDOUT, wakes[1..]);
      WaitAsWritten(true, ETIMEDOUT, wakes[1..][1..]);
      ReportTimeout;
    }
  }

  /** Corrected, the first timeout ends the wait, and the run exits with code 1. */
  lemma SilentServerTimesOutFixed(n: nat, dirStatus: int)
    requires n > 0
    ensures WaitFixed(false, 0, Silence(n)) == ReportTimeout
    ensures DirectoryWaitStop(WaitFixed(false, 0, Silence(n)), dirStatus) == Some(ServerTimeout)
    ensures ExitCode(ServerTimeout) == 1
  {
    assert Silence(n)[0] == Wake(ETIMEDOUT, false);
  }

  /** The corrected wait decides at the first wake that times out or finds dir_done set. */
  lemma {:induction false} FixedWaitDecidesAtFirstEvent(ret: int, wakes: seq<Wake>, k: nat)
    requires ret == 0 && k < |wakes| && (wakes[k].ret != 0 || wakes[k].dirDone)
    requires forall j :: 0 <= j < k ==> wakes[j].ret == 0 && !wakes[j].dirDone
    ensures WaitFixed(false, ret, wakes) == (if wakes[k].ret != 0 then ReportTimeout else Proceed)
  {
    if k > 0 {
      FixedWaitDecidesAtFirstEvent(wakes[0].ret, wakes[1..], k - 1);
    }
  }

  /** Where no wait times out, the correction changes nothing. */
  lemma {:induction false} FixedAgreesWithoutTimeout(dirDone: bool, wakes: seq<Wake>)
    requires forall j :: 0 <= j < |wakes| ==> wakes[j].ret == 0
    decreases |wakes|
    ensures WaitFixed(dirDone, 0, wakes) == WaitAsWritten(dirDone, 0, wakes)
  {
    if !dirDone && wakes != [] {
      FixedAgreesWithoutTimeout(wakes[0].dirDone, wakes[1..]);
    }
  }

  // ---------------------------------------------------------------------
  // Outcome of the directory phase and exit codes

  /** After the wait: a timeout, then a non-zero directory status, end the run. */
  function DirectoryWaitStop(v: WaitVerdict, dirStatus: int): (r: Option<Stop>)
    requires v != StillWaiting
    ensures r == None <==> v == Proceed && dirStatus == 0
    ensures v == ReportTimeout ==> r == Some(ServerTimeout)
    ensures v == Proceed && dirStatus != 0 ==> r == Some(DirectoryError(dirStatus))
  {
    match v
    case ReportTimeout => Some(ServerTimeout)
    case Proceed => if dirStatus != 0 then Some(DirectoryError(dirStatus)) else None
  }

  /** The process exit code of each outcome. */
  function ExitCode(s: Stop): (code: int)
    ensures 0 <= code <= 3
    ensures code == 0 <==> s == Finished
    ensures code == 2 <==> s == ConnectFailed || s == ManualDirAllocFailed
    ensures code == 3 <==> s.DirectoryError?
  {
    match s
    case Finished => 0
    case ConnectFailed => 2
    case ManualDirAllocFailed => 2
    case DirectoryError(_) => 3
    case _ => 1
  }

  /**
   * A directory phase that ends with a failing page, an error page or an
   * allocation failure, exits with code 3 once the wait lets main proceed.
   */
  lemma DirectoryFailureExitsThree(m: Mode, evs: seq<DirEvent>, j: nat)
    requires AllWellFormed(evs) && j < |evs| && evs[j].Fails()
    ensures var st := RunPages(m, Initial, evs);
      DirectoryWaitStop(Proceed, st.dirStatus).Some? &&
      ExitCode(DirectoryWaitStop(Proceed, st.dirStatus).value) == 3
  {
    DirStatusNonZeroIffFailure(m, Initial, evs);
  }
}
