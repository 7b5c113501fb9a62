/** `main.c`: the DHCP task hands the network over to the HTTP task. The two share the variable
    `sock` and are ordered by suspending and resuming alone. The scheduler may run them in any
    order, so a run is any sequence of steps each of which its task can take at that point. */
module Tasks {
  import opened Wrappers

  /** Where the DHCP task stands: `dhcpTask`, lines 50 to 57. */
  datatype DhcpPc = Starting | Listening | Closing | Resuming | Suspending

  /** Where the HTTP task stands: `httpPostTask`, line 75, and the body of `httpApplicationPost`. */
  datatype HttpPc = Waiting | Opening | Sending | Receiving | Leaving | Resting

  /** Which task's call of `socket` the value of `sock` comes from, and whether that call succeeded. */
  datatype Socket = Nobody | ByDhcp(open: bool) | ByHttp(open: bool)

  datatype State = State(dhcp: DhcpPc, http: HttpPc, dhcpSuspended: bool, httpSuspended: bool, sock: Socket)

  const INITIAL := State(Starting, Waiting, false, false, Nobody)

  datatype Action =
    | StartApplication(open: bool)
    | Listen(status: int)
    | CloseApplication
    | ResumeHttp
    | SuspendDhcp
    | SuspendHttp
    | CreateSocket(open: bool, connected: bool)
    | Send
    | Receive
    | CloseSocket
    | Delay

  predicate ByDhcpTask(a: Action) {
    a.StartApplication? || a.Listen? || a.CloseApplication? || a.ResumeHttp? || a.SuspendDhcp?
  }

  predicate DhcpTouches(a: Action) {
    a.StartApplication? || a.Listen? || a.CloseApplication?
  }

  predicate HttpTouches(a: Action) {
    a.CreateSocket? || a.Send? || a.Receive? || a.CloseSocket?
  }

  /** One step; None if the task is suspended or stands elsewhere. Suspending twice is the
      same as once, and resuming one that is not suspended does nothing. The DHCP task goes on
      whether or not it got a socket; the HTTP task goes on only with one that is connected. */
  function Step(s: State, a: Action): (next: Option<State>) {
    if (if ByDhcpTask(a) then s.dhcpSuspended else s.httpSuspended) then None
    else
      match a
      case StartApplication(open) =>
        if s.dhcp.Starting? then Some(s.(dhcp := Listening, sock := ByDhcp(open))) else None
      case Listen(status) =>
        if s.dhcp.Listening? then Some(s.(dhcp := if status == 2 then Closing else Listening)) else None
      case CloseApplication =>
        if s.dhcp.Closing? then Some(s.(dhcp := Resuming)) else None
      case ResumeHttp =>
        if s.dhcp.Resuming? then Some(s.(dhcp := Suspending, httpSuspended := false)) else None
      case SuspendDhcp =>
        if s.dhcp.Suspending? then Some(s.(dhcp := Listening, dhcpSuspended := true)) else None
      case SuspendHttp =>
        if s.http.Waiting? then Some(s.(http := Opening, httpSuspended := true)) else None
      case CreateSocket(open, connected) =>
        if s.http.Opening? then
          Some(s.(http := if open && connected then Sending else Resting, sock := ByHttp(open)))
        else None
      case Send =>
        if s.http.Sending? then Some(s.(http := Receiving)) else None
      case Receive =>
        if s.http.Receiving? then Some(s.(http := Leaving)) else None
      case CloseSocket =>
        if s.http.Leaving? then Some(s.(http := Resting)) else None
      case Delay =>
        if s.http.Resting? then Some(s.(http := Opening)) else None
  }

  /** The state after a sequence of steps from the start, if all of them can be taken. */
  function Run(acts: seq<Action>): (s: Option<State>) {
    if acts == [] then Some(INITIAL)
    else
      match Run(acts[..|acts| - 1])
      case None => None
      case Some(s) => Step(s, acts[|acts| - 1])
  }

  /** The HTTP task suspended itself and was resumed afterwards. */
  predicate HandedOver(acts: seq<Action>) {
    exists i, j :: 0 <= i < j < |acts| && acts[i] == SuspendHttp && acts[j] == ResumeHttp
  }

  /** What holds after every run, of the state and of the steps that led to it. */
  ghost predicate Inv(acts: seq<Action>, s: State) {
    && (Listen(2) in acts <==> s.dhcp.Closing? || s.dhcp.Resuming? || s.dhcp.Suspending? || s.dhcpSuspended)
    && (CloseApplication in acts <==> s.dhcp.Resuming? || s.dhcp.Suspending? || s.dhcpSuspended)
    && (ResumeHttp in acts <==> s.dhcp.Suspending? || s.dhcpSuspended)
    && (s.dhcpSuspended ==> s.dhcp.Listening?)
    && (SuspendHttp in acts <==> !s.http.Waiting?)
    && (s.http.Waiting? ==> !s.httpSuspended)
    && (!s.http.Waiting? ==> (s.httpSuspended <==> !HandedOver(acts)))
    && (s.http.Sending? || s.http.Receiving? || s.http.Leaving? || s.http.Resting? ==> HandedOver(acts))
    && (s.dhcp.Listening? || s.dhcp.Closing? ==> s.dhcpSuspended || s.sock.ByDhcp?)
    && (s.sock.ByDhcp? ==> StartApplication(s.sock.open) in acts)
    && (s.http.Sending? || s.http.Receiving? || s.http.Leaving? ==> s.sock == ByHttp(true))
  }

  lemma HandedOverStep(acts: seq<Action>, a: Action)
    ensures HandedOver(acts + [a]) <==> HandedOver(acts) || (a == ResumeHttp && SuspendHttp in acts)
  {
    var all := acts + [a];
    if HandedOver(acts) {
      var i, j :| 0 <= i < j < |acts| && acts[i] == SuspendHttp && acts[j] == ResumeHttp;
      assert all[i] == SuspendHttp && all[j] == ResumeHttp;
    }
    if a == ResumeHttp && SuspendHttp in acts {
      var i :| 0 <= i < |acts| && acts[i] == SuspendHttp;
      assert all[i] == SuspendHttp && all[|acts|] == ResumeHttp;
    }
  }

  lemma {:induction false} RunInv(acts: seq<Action>)
    requires Run(acts).Some?
    ensures Inv(acts, Run(acts).value)
  {
    if acts != [] {
      var front, a := acts[..|acts| - 1], acts[|acts| - 1];
      RunInv(front);
      HandedOverStep(front, a);
      assert acts == front + [a];
    }
  }

  /** Every beginning of a run is a run. */
  lemma {:induction false} RunPrefix(acts: seq<Action>, k: nat)
    requires Run(acts).Some? && k <= |acts|
    ensures Run(acts[..k]).Some?
    ensures k < |acts| ==> Step(Run(acts[..k]).value, acts[k]).Some?
  {
    var n := |acts|;
    if k == n {
      assert acts[..k] == acts;
    } else if k < n - 1 {
      RunPrefix(acts[..n - 1], k);
      assert acts[..n - 1][..k] == acts[..k];
    }
  }

  lemma InvAt(acts: seq<Action>, k: nat)
    requires Run(acts).Some? && k < |acts|
    ensures Run(acts[..k]).Some? && Inv(acts[..k], Run(acts[..k]).value)
    ensures Step(Run(acts[..k]).value, acts[k]).Some?
  {
    RunPrefix(acts, k);
    RunInv(acts[..k]);
  }

  lemma InPrefix(acts: seq<Action>, i: nat, j: nat, a: Action)
    requires i <= j <= |acts| && a in acts[..i]
    ensures a in acts[..j]
  {
    var k :| 0 <= k < i && acts[..i][k] == a;
    assert acts[..j][k] == a;
  }

  /** The DHCP task leaves its loop exactly when the listener has returned 2, the status of an ACK. */
  lemma HandOverStarts(acts: seq<Action>)
    requires Run(acts).Some?
    ensures var s := Run(acts).value;
            s.dhcp.Closing? || s.dhcp.Resuming? || s.dhcp.Suspending? || s.dhcpSuspended <==> Listen(2) in acts
    ensures CloseApplication in acts || ResumeHttp in acts || SuspendDhcp in acts ==> Listen(2) in acts
  {
    RunInv(acts);
    if SuspendDhcp in acts {
      var k :| 0 <= k < |acts| && acts[k] == SuspendDhcp;
      InvAt(acts, k);
      InPrefix(acts, k, |acts|, Listen(2));
      assert acts[..|acts|] == acts;
    }
  }

  /** Safety of the hand-over, in every interleaving: when the HTTP task touches the socket
      variable, the DHCP task has closed its socket and resumed the HTTP task out of its initial
      suspension, and the DHCP task never touches the variable again. */
  lemma HandOverIsSafe(acts: seq<Action>, i: nat)
    requires Run(acts).Some? && i < |acts| && HttpTouches(acts[i])
    ensures Listen(2) in acts[..i] && CloseApplication in acts[..i] && HandedOver(acts[..i])
    ensures forall j :: i < j < |acts| ==> !DhcpTouches(acts[j])
  {
    InvAt(acts, i);
    forall j | i < j < |acts| ensures !DhcpTouches(acts[j]) {
      InvAt(acts, j);
      InPrefix(acts, i, j, ResumeHttp);
    }
  }

  /** Neither task ever works on a socket the other one opened. The HTTP task works on open sockets
      only; the DHCP task also on what a failed call left behind, as it does not look. */
  lemma SocketIsOwn(acts: seq<Action>, i: nat)
    requires Run(acts).Some? && i < |acts|
    ensures var s := Run(acts[..i]);
            s.Some?
            && (acts[i].Listen? || acts[i].CloseApplication? ==>
                  s.value.sock.ByDhcp? && StartApplication(s.value.sock.open) in acts[..i])
            && (acts[i].Send? || acts[i].Receive? || acts[i].CloseSocket? ==> s.value.sock == ByHttp(true))
  {
    InvAt(acts, i);
  }

  /** After its initial suspension the HTTP task can take a step exactly when that suspension came
      before the one call that resumes it. */
  lemma HttpRunsIff(acts: seq<Action>)
    requires Run(acts).Some? && SuspendHttp in acts
    ensures (exists a :: !ByDhcpTask(a) && Step(Run(acts).value, a).Some?) <==> HandedOver(acts)
  {
    RunInv(acts);
    var s := Run(acts).value;
    if HandedOver(acts) {
      var a := match s.http
               case Waiting => SuspendHttp
               case Opening => CreateSocket(true, true)
               case Sending => Send
               case Receiving => Receive
               case Leaving => CloseSocket
               case Resting => Delay;
      assert !ByDhcpTask(a) && Step(s, a).Some?;
    }
  }

  /** The HTTP task is resumed at most once. */
  lemma ResumeIsOnce(acts: seq<Action>, k: nat, j: nat)
    requires Run(acts).Some? && k <= |acts| && j < |acts|
    requires ResumeHttp in acts[..k] && acts[j] == ResumeHttp
    ensures j < k
  {
    InvAt(acts, j);
    if k <= j {
      InPrefix(acts, k, j, ResumeHttp);
    }
  }

  lemma HandedOverLater(acts: seq<Action>, k: nat)
    requires k <= |acts| && HandedOver(acts[..k])
    ensures HandedOver(acts)
  {
    var i, j :| 0 <= i < j < k && acts[..k][i] == SuspendHttp && acts[..k][j] == ResumeHttp;
    assert acts[i] == SuspendHttp && acts[j] == ResumeHttp;
  }

  /** A resumption that comes too early is lost for good: however the run goes on, the HTTP task
      never touches the socket. */
  lemma EarlyResumeIsLost(acts: seq<Action>, more: seq<Action>)
    requires Run(acts + more).Some?
    requires ResumeHttp in acts && !HandedOver(acts)
    ensures !HandedOver(acts + more)
    ensures forall i :: 0 <= i < |acts + more| ==> !HttpTouches((acts + more)[i])
  {
    var all := acts + more;
    assert all[..|acts|] == acts;
    forall i, j | 0 <= i < j < |all| && all[j] == ResumeHttp ensures all[i] != SuspendHttp {
      ResumeIsOnce(all, |acts|, j);
      assert all[i] == acts[i] && all[j] == acts[j];
    }
    forall i | 0 <= i < |all| ensures !HttpTouches(all[i]) {
      if HttpTouches(all[i]) {
        HandOverIsSafe(all, i);
        HandedOverLater(all, i);
      }
    }
  }

  const EARLY_RESUME := [StartApplication(true), Listen(2), CloseApplication, ResumeHttp, SuspendDhcp, SuspendHttp]

  /** Such a run exists: the whole DHCP exchange is over before the HTTP task first runs. Nothing
      can happen afterwards. */
  lemma EarlyResumeHappens()
    ensures var s := Run(EARLY_RESUME);
            s.Some? && forall a :: Step(s.value, a) == None
  {
    var acts := EARLY_RESUME;
    assert acts[..6] == acts && acts[..1] == [StartApplication(true)];
    assert acts[..1][..0] == [] && acts[..2][..1] == acts[..1] && acts[..3][..2] == acts[..2];
    assert acts[..4][..3] == acts[..3] && acts[..5][..4] == acts[..4] && acts[..6][..5] == acts[..5];
    assert Run(acts[..1]) == Some(State(Listening, Waiting, false, false, ByDhcp(true)));
    assert Run(acts[..2]) == Some(State(Closing, Waiting, false, false, ByDhcp(true)));
    assert Run(acts[..3]) == Some(State(Resuming, Waiting, false, false, ByDhcp(true)));
    assert Run(acts[..4]) == Some(State(Suspending, Waiting, false, false, ByDhcp(true)));
    assert Run(acts[..5]) == Some(State(Listening, Waiting, true, false, ByDhcp(true)));
    assert Run(acts[..6]) == Some(State(Listening, Opening, true, true, ByDhcp(true)));
  }

  // ---------- all runs

  /** What the code of `dhcpTask` lets follow on the last step of the task. */
  predicate FollowsDhcp(last: Option<Action>, a: Action) {
    match a
    case StartApplication(_) => last == None
    case Listen(_) => last.Some? && (last.value.StartApplication? || (last.value.Listen? && last.value.status != 2))
    case CloseApplication => last == Some(Listen(2))
    case ResumeHttp => last == Some(CloseApplication)
    case SuspendDhcp => last == Some(ResumeHttp)
    case _ => false
  }

  /** The same for `httpPostTask` and `httpApplicationPost`. */
  predicate FollowsHttp(last: Option<Action>, a: Action) {
    match a
    case SuspendHttp => last == None
    case CreateSocket(_, _) => last == Some(SuspendHttp) || last == Some(Delay)
    case Send => last == Some(CreateSocket(true, true))
    case Receive => last == Some(Send)
    case CloseSocket => last == Some(Receive)
    case Delay =>
      last == Some(CloseSocket)
      || (last.Some? && last.value.CreateSocket? && last.value != CreateSocket(true, true))
    case _ => false
  }

  /** The last step one of the tasks has taken. */
  function LastStep(acts: seq<Action>, dhcp: bool): (last: Option<Action>) {
    if acts == [] then None
    else if ByDhcpTask(acts[|acts| - 1]) == dhcp then Some(acts[|acts| - 1])
    else LastStep(acts[..|acts| - 1], dhcp)
  }

  /** A step may follow if it is the next one of its task, and the HTTP task was resumed if it has
      suspended itself. */
  predicate MayFollow(acts: seq<Action>, a: Action) {
    if ByDhcpTask(a) then FollowsDhcp(LastStep(acts, true), a)
    else FollowsHttp(LastStep(acts, false), a) && (SuspendHttp in acts ==> HandedOver(acts))
  }

  /** What the last steps say about the state. */
  predicate AfterLast(acts: seq<Action>, s: State) {
    && (s.dhcpSuspended <==> LastStep(acts, true) == Some(SuspendDhcp))
    && (!s.dhcpSuspended ==>
          match LastStep(acts, true)
          case None => s.dhcp.Starting?
          case Some(StartApplication(_)) => s.dhcp.Listening?
          case Some(Listen(status)) => s.dhcp == if status == 2 then Closing else Listening
          case Some(CloseApplication) => s.dhcp.Resuming?
          case Some(ResumeHttp) => s.dhcp.Suspending?
          case _ => false)
    && (match LastStep(acts, false)
        case None => s.http.Waiting?
        case Some(SuspendHttp) => s.http.Opening?
        case Some(CreateSocket(open, connected)) => s.http == if open && connected then Sending else Resting
        case Some(Send) => s.http.Receiving?
        case Some(Receive) => s.http.Leaving?
        case Some(CloseSocket) => s.http.Resting?
        case Some(Delay) => s.http.Opening?
        case _ => false)
  }

  lemma LastStepOn(acts: seq<Action>, a: Action, dhcp: bool)
    ensures LastStep(acts + [a], dhcp) == if ByDhcpTask(a) == dhcp then Some(a) else LastStep(acts, dhcp)
  {
    assert (acts + [a])[..|acts|] == acts;
  }

  lemma RunOn(acts: seq<Action>, a: Action)
    ensures Run(acts + [a]) == match Run(acts) case None => None case Some(s) => Step(s, a)
  {
    assert (acts + [a])[..|acts|] == acts;
  }

  lemma {:induction false} LastSteps(acts: seq<Action>)
    requires Run(acts).Some?
    ensures AfterLast(acts, Run(acts).value)
  {
    if acts != [] {
      var front, a := acts[..|acts| - 1], acts[|acts| - 1];
      assert acts == front + [a];
      RunOn(front, a);
      LastSteps(front);
      hide LastStep, Run;
      LastStepOn(front, a, true);
      LastStepOn(front, a, false);
    }
  }

  lemma StepIff(acts: seq<Action>, a: Action)
    requires Run(acts).Some?
    ensures Step(Run(acts).value, a).Some? <==> MayFollow(acts, a)
  {
    LastSteps(acts);
    RunInv(acts);
    hide LastStep, Run, HandedOver;
  }

  /** The runs are exactly the interleavings in which each task takes its steps in the order of its
      code and the HTTP task takes none between suspending itself and being resumed. */
  lemma {:induction false} RunIff(acts: seq<Action>)
    ensures Run(acts).Some? <==> forall k :: 0 <= k < |acts| ==> MayFollow(acts[..k], acts[k])
  {
    if acts != [] {
      var n := |acts| - 1;
      var front, a := acts[..n], acts[n];
      RunIff(front);
      assert acts == front + [a];
      RunOn(front, a);
      assert forall k :: 0 <= k < n ==> front[..k] == acts[..k] && front[k] == acts[k];
      if Run(front).Some? {
        StepIff(front, a);
      }
    }
  }

  // ---------- sockets that are never closed

  /** Step i is the first call of `socket` by the HTTP task after the one of step j. */
  predicate NextCreate(acts: seq<Action>, j: nat, i: nat) {
    && j < i < |acts| && acts[j].CreateSocket? && acts[i].CreateSocket?
    && forall k :: j < k < i ==> !acts[k].CreateSocket?
  }

  predicate ClosedBetween(acts: seq<Action>, j: nat, i: nat)
    requires i <= |acts|
  {
    exists k :: j < k < i && acts[k] == CloseSocket
  }

  lemma ClosedStep(acts: seq<Action>, j: nat, m: nat)
    requires j < m < |acts|
    ensures ClosedBetween(acts, j, m + 1) <==> ClosedBetween(acts, j, m) || acts[m] == CloseSocket
  {
  }

  lemma NotYetClosed(acts: seq<Action>, j: nat)
    requires j < |acts|
    ensures !ClosedBetween(acts, j, j + 1)
  {
  }

  lemma RunAt(acts: seq<Action>, m: nat)
    requires Run(acts).Some? && 0 < m <= |acts|
    ensures Run(acts[..m - 1]).Some? && Run(acts[..m]).Some?
    ensures Run(acts[..m]) == Step(Run(acts[..m - 1]).value, acts[m - 1])
  {
    RunPrefix(acts, m - 1);
    RunPrefix(acts, m);
    assert acts[..m][..m - 1] == acts[..m - 1];
  }

  /** Where the HTTP task stands, between two calls of `socket`, tells whether the socket of the
      first was closed. */
  lemma {:induction false} Between(acts: seq<Action>, j: nat, m: nat)
    requires Run(acts).Some? && j < m <= |acts| && acts[j].CreateSocket?
    requires forall k :: j < k < m ==> !acts[k].CreateSocket?
    ensures Run(acts[..m]).Some?
    ensures var http, closed := Run(acts[..m]).value.http, ClosedBetween(acts, j, m);
            if acts[j].open && acts[j].connected then
              if closed then http.Resting? || http.Opening? else http.Sending? || http.Receiving? || http.Leaving?
            else !closed && (http.Resting? || http.Opening?)
    decreases m
  {
    hide Run, ClosedBetween;
    RunAt(acts, m);
    if m > j + 1 {
      Between(acts, j, m - 1);
      ClosedStep(acts, j, m - 1);
    } else {
      NotYetClosed(acts, j);
    }
  }

  /** An open socket is closed before the next call of `socket` exactly when it was connected: after
      a failed `connect` the task returns without closing, and the variable is overwritten. */
  lemma ClosedIff(acts: seq<Action>, j: nat, i: nat)
    requires Run(acts).Some? && NextCreate(acts, j, i) && acts[j].open
    ensures ClosedBetween(acts, j, i) <==> acts[j].connected
  {
    Between(acts, j, i);
    InvAt(acts, i);
  }

  lemma {:induction false} NextAfter(acts: seq<Action>, j: nat, i: nat) returns (next: nat)
    requires j < i < |acts| && acts[j].CreateSocket? && acts[i].CreateSocket?
    ensures NextCreate(acts, j, next) && next <= i
    decreases i
  {
    if k :| j < k < i && acts[k].CreateSocket? {
      next := NextAfter(acts, j, k);
    } else {
      next := i;
    }
  }

  /** A run closes every open socket before the next call exactly when no call but the last one got a
      socket that would not connect. */
  lemma NoSocketLostIff(acts: seq<Action>)
    requires Run(acts).Some?
    ensures (forall j: nat, i: nat :: NextCreate(acts, j, i) && acts[j].open ==> ClosedBetween(acts, j, i))
            <==> forall j: nat, i: nat :: j < i < |acts| && acts[j].CreateSocket? && acts[i].CreateSocket? ==>
                   !(acts[j].open && !acts[j].connected)
  {
    forall j: nat, i: nat | NextCreate(acts, j, i) && acts[j].open
      ensures ClosedBetween(acts, j, i) <==> acts[j].connected
    {
      ClosedIff(acts, j, i);
    }
    forall j: nat, i: nat | j < i < |acts| && acts[j].CreateSocket? && acts[i].CreateSocket?
      ensures exists next: nat :: NextCreate(acts, j, next)
    {
      var next := NextAfter(acts, j, i);
    }
  }

  const FAILED_CONNECT := [SuspendHttp, StartApplication(true), Listen(2), CloseApplication, ResumeHttp,
                           CreateSocket(true, false), Delay, CreateSocket(true, true)]

  /** Such a run exists: the second socket is opened while the first still is. */
  lemma SocketLost()
    ensures Run(FAILED_CONNECT).Some? && NextCreate(FAILED_CONNECT, 5, 7)
    ensures FAILED_CONNECT[5].open && !ClosedBetween(FAILED_CONNECT, 5, 7)
  {
    var a0 := [SuspendHttp];
    var a1 := a0 + [StartApplication(true)];
    var a2 := a1 + [Listen(2)];
    var a3 := a2 + [CloseApplication];
    var a4 := a3 + [ResumeHttp];
    var a5 := a4 + [CreateSocket(true, false)];
    var a6 := a5 + [Delay];
    var a7 := a6 + [CreateSocket(true, true)];
    RunOn([], SuspendHttp);
    assert [] + [SuspendHttp] == a0;
    RunOn(a0, StartApplication(true));
    RunOn(a1, Listen(2));
    RunOn(a2, CloseApplication);
    RunOn(a3, ResumeHttp);
    RunOn(a4, CreateSocket(true, false));
    RunOn(a5, Delay);
    RunOn(a6, CreateSocket(true, true));
    assert a7 == FAILED_CONNECT;
  }
}
