/** The application glue: one product_on_connect call for each broker session it sees. */
module MqttApp {
  import opened MqttConn

  /**
   The client with the edge detector on top.  For the statement only: sessions counts the
   CONNACKs accepted so far, announced lists the session at each product_on_connect call.
   */
  datatype App = App(cli: Cli, wasConnected: bool, sessions: nat, announced: seq<nat>)

  const APP_INIT := App(INIT, false, 0, [])

  datatype AppEvent =
    | AppStart(hasBroker: bool)
    | AppStop
    | AppTick(ms: nat, env: Env)
    | Network(e: Event)

  function AppStep(a: App, e: AppEvent): App {
    match e
    case AppStart(hasBroker) =>
      if !hasBroker then a else a.(cli := Step(a.cli, Start(true)), wasConnected := false)
    case AppStop => a.(cli := Step(a.cli, Stop), wasConnected := false)
    case AppTick(ms, env) =>
      var cli := Step(a.cli, Tick(ms, env));
      a.(cli := cli,
         wasConnected := cli.state.Ready?,
         announced := if cli.state.Ready? && !a.wasConnected then a.announced + [a.sessions] else a.announced)
    case Network(ev) =>
      a.(cli := Step(a.cli, ev),
         sessions := if ev.ConnAck? && ev.accepted then a.sessions + 1 else a.sessions)
  }

  /** Starts, stops and ticks come through the application; the rest obeys the network's rules. */
  predicate AppLegal(a: App, e: AppEvent) {
    e.Network? ==> !e.e.Start? && !e.e.Stop? && !e.e.Tick? && Legal(a.cli, e.e)
  }

  function AppRun(a: App, es: seq<AppEvent>): App
    decreases |es|
  {
    if es == [] then a else AppRun(AppStep(a, es[0]), es[1..])
  }

  predicate AppLegalRun(a: App, es: seq<AppEvent>)
    decreases |es|
  {
    es == [] || (AppLegal(a, es[0]) && AppLegalRun(AppStep(a, es[0]), es[1..]))
  }

  predicate Increasing(s: seq<nat>) {
    forall i, j :: 0 <= i < j < |s| ==> s[i] < s[j]
  }

  /**
   While an attempt is under way the last tick saw no connection, because only a tick starts
   an attempt; so a new session is always met by wasConnected == false.
   */
  ghost predicate EdgeInv(a: App) {
    && Increasing(a.announced)
    && (forall i :: 0 <= i < |a.announced| ==> a.announced[i] <= a.sessions)
    && (a.cli.state.Dns? || a.cli.state.Tcp? || a.cli.state.Connecting? ==> !a.wasConnected)
    && (a.cli.state.Ready? ==> (a.wasConnected <==> a.sessions in a.announced))
  }

  lemma {:induction false} EdgeStep(a: App, e: AppEvent)
    requires EdgeInv(a) && AppLegal(a, e)
    ensures EdgeInv(AppStep(a, e))
    ensures e.AppTick? && AppStep(a, e).cli.state.Ready? ==> AppStep(a, e).sessions in AppStep(a, e).announced
  {
    var b := AppStep(a, e);
    if e.AppTick? && b.cli.state.Ready? && !a.wasConnected {
      assert a.cli.state.Ready?;
      assert b.announced[|b.announced| - 1] == a.sessions;
    }
  }

  lemma {:induction false} EdgeRun(a: App, es: seq<AppEvent>)
    requires EdgeInv(a) && AppLegalRun(a, es)
    ensures EdgeInv(AppRun(a, es))
    decreases |es|
  {
    if es != [] {
      EdgeStep(a, es[0]);
      EdgeRun(AppStep(a, es[0]), es[1..]);
    }
  }

  /** Announced sessions are never forgotten. */
  lemma {:induction false} AnnouncedGrows(a: App, es: seq<AppEvent>)
    ensures a.announced <= AppRun(a, es).announced
    decreases |es|
  {
    if es != [] { AnnouncedGrows(AppStep(a, es[0]), es[1..]); }
  }

  /**
   Over every run of starts, stops, ticks and network events: no session is announced twice,
   and a session that is ready at some tick has been announced exactly once from then on.
   */
  lemma {:induction false} OneCallPerSession(es: seq<AppEvent>, ms: nat, env: Env, later: seq<AppEvent>)
    requires AppLegalRun(APP_INIT, es)
    requires AppLegalRun(AppStep(AppRun(APP_INIT, es), AppTick(ms, env)), later)
    ensures
      var seen := AppStep(AppRun(APP_INIT, es), AppTick(ms, env));
      var end := AppRun(seen, later);
      && (forall i, j :: 0 <= i < j < |end.announced| ==> end.announced[i] != end.announced[j])
      && (seen.cli.state.Ready? ==> seen.sessions in end.announced)
  {
    var before := AppRun(APP_INIT, es);
    EdgeRun(APP_INIT, es);
    EdgeStep(before, AppTick(ms, env));
    var seen := AppStep(before, AppTick(ms, env));
    EdgeRun(seen, later);
    AnnouncedGrows(seen, later);
  }
}
