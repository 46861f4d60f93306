/**
 * Relaunching windows: `recall_revive` brings an archived terminal back at its
 * saved directory, `restore_window` relaunches a saved terminal or editor
 * window. Both launch, then poll the host's window list for a window that was
 * not there before, and adopt it.
 *
 * The host is seen through snapshots: `before` is the enumeration taken just
 * before launching, `polls(k)` the one taken at the `k`-th poll (the sleeps
 * between polls are not modelled).
 */
module RecallLifecycle {
  import opened Common
  import opened Text
  import opened Dicts
  import opened RecallState
  import opened RecallCommands
  import opened RecallTerminal
  import opened Recall

  /** Number of polls `recall_revive` makes before giving up (about two seconds). */
  const ReviveTries: nat := 20

  /** Number of polls `restore_window` makes before giving up (about four seconds). */
  const RestoreTries: nat := 40

  /** The ids of every window of the applications named `app`. */
  function KnownIds(snap: Snapshot, app: string): (ids: set<int>)
    ensures forall p | ValidPos(snap, p) && snap[p.app].name == app :: At(snap, p).id in ids
    ensures forall id | id in ids :: exists p :: ValidPos(snap, p) && snap[p.app].name == app && At(snap, p).id == id
  {
    var ids := set a, w | a in snap && a.name == app && w in a.windows :: w.id;
    assert forall p | ValidPos(snap, p) && snap[p.app].name == app :: At(snap, p).id in ids by {
      forall p | ValidPos(snap, p) && snap[p.app].name == app ensures At(snap, p).id in ids {
        assert snap[p.app] in snap && At(snap, p) in snap[p.app].windows;
      }
    }
    assert forall id | id in ids :: exists p :: ValidPos(snap, p) && snap[p.app].name == app && At(snap, p).id == id by {
      forall id | id in ids ensures exists p :: ValidPos(snap, p) && snap[p.app].name == app && At(snap, p).id == id {
        var a, w :| a in snap && a.name == app && w in a.windows && w.id == id;
        var i :| 0 <= i < |snap| && snap[i] == a;
        var k :| 0 <= k < |a.windows| && a.windows[k] == w;
        assert At(snap, Pos(i, k)) == w;
      }
    }
    ids
  }

  /** The polls from the `k`-th on: the first one whose enumeration shows a
      window meeting `c` ends the loop with that window. */
  function PollFrom(polls: nat -> Snapshot, c: Criterion, k: nat, tries: nat): (r: Option<(nat, Window)>)
    requires k <= tries
    ensures r.Some? ==> k <= r.value.0 < tries
    ensures r.Some? ==> exists p :: IsFirst(polls(r.value.0), c, p) && At(polls(r.value.0), p) == r.value.1
    ensures r.Some? ==> forall j | k <= j < r.value.0 :: NoneMatch(polls(j), c)
    ensures r.None? <==> forall j | k <= j < tries :: NoneMatch(polls(j), c)
    decreases tries - k
  {
    if k == tries then None
    else
      match FirstMatch(polls(k), c)
      case Some(p) => Some((k, At(polls(k), p)))
      case None => PollFrom(polls, c, k + 1, tries)
  }

  /** The polling loop: the poll index and window it stops at, if any. */
  function Poll(polls: nat -> Snapshot, c: Criterion, tries: nat): (r: Option<(nat, Window)>)
    ensures r.Some? ==> r.value.0 < tries
    ensures r.Some? ==> exists p :: IsFirst(polls(r.value.0), c, p) && At(polls(r.value.0), p) == r.value.1
    ensures r.Some? ==> forall j | 0 <= j < r.value.0 :: NoneMatch(polls(j), c)
    ensures r.None? <==> forall j | 0 <= j < tries :: NoneMatch(polls(j), c)
  {
    PollFrom(polls, c, 0, tries)
  }

  /** A window the polling loop adopts is a sized window of the application that
      was not enumerated before the launch. */
  lemma PolledWindowIsNew(before: Snapshot, polls: nat -> Snapshot, app: string, tries: nat)
    requires Poll(polls, FreshIn(app, KnownIds(before, app)), tries).Some?
    ensures var r := Poll(polls, FreshIn(app, KnownIds(before, app)), tries).value;
            && r.1.width > 0
            && (exists p :: ValidPos(polls(r.0), p) && polls(r.0)[p.app].name == app && At(polls(r.0), p) == r.1)
            && (forall p | ValidPos(before, p) && before[p.app].name == app :: At(before, p).id != r.1.id)
  {
    var r := Poll(polls, FreshIn(app, KnownIds(before, app)), tries).value;
    var p :| IsFirst(polls(r.0), FreshIn(app, KnownIds(before, app)), p) && At(polls(r.0), p) == r.1;
    assert MatchesAt(polls(r.0), FreshIn(app, KnownIds(before, app)), p);
    assert polls(r.0)[p.app].name == app;
  }

  /** `_launch_terminal` as a host action. */
  function LaunchAction(launchers: set<string>, app: string, path: string): (a: HostAction)
    ensures app in launchers ==> a == RunLauncher(app, path)
    ensures app !in launchers ==> a == Spawn(Lower(app), ["--working-directory=" + path])
  {
    match LaunchTerminal(launchers, app, path)
    case Registered(a, p) => RunLauncher(a, p)
    case Generic(program, args) => Spawn(program, args)
  }

  /** The default command typed into an adopted window: only when the entry
      has a command and it resolves to a non-empty shell command. */
  function CommandActions(commands: Dict<string>, w: Window, command: Option<string>, path: Option<string>): (acts: seq<HostAction>)
    ensures Truthy(command) && ResolveCommand(commands, command.value) != "" ==>
      acts == RunWhenReady(w, ResolveCommand(commands, command.value), path)
    ensures !(Truthy(command) && ResolveCommand(commands, command.value) != "") ==> acts == []
  {
    if Truthy(command) then
      var shell := ResolveCommand(commands, command.value);
      if shell != "" then RunWhenReady(w, shell, path) else []
    else []
  }

  /** What the adoption step leaves: the active map, the window adopted (if
      any) and the host actions made, the launch first. */
  datatype Adoption = Adoption(active: Dict<Entry>, window: Option<Window>, actions: seq<HostAction>)

  /** The adoption step `recall_revive` and `restore_window` share: after
      `launch`, poll up to `tries` times for a window of the entry's application
      that `before` did not show; store it under `name` with its handle and
      title, focus it and type the entry's default command. */
  function Adopt(active: Dict<Entry>, name: string, e: Entry, launch: HostAction, commands: Dict<string>,
                 before: Snapshot, polls: nat -> Snapshot, tries: nat): (r: Adoption)
    ensures r.window.None? <==> Poll(polls, FreshIn(e.app, KnownIds(before, e.app)), tries).None?
    ensures r.window.Some? ==> r.window.value == Poll(polls, FreshIn(e.app, KnownIds(before, e.app)), tries).value.1
    ensures r.window.None? ==> r.active == active && r.actions == [launch]
    ensures r.window.Some? ==>
      var w := r.window.value;
      && w.width > 0
      && w.id !in KnownIds(before, e.app)
      && Has(r.active, name)
      && Get(r.active, name) == e.(id := Some(w.id), title := w.title)
      && AgreeExcept(active, r.active, {name})
      && (Has(active, name) ==> Keys(r.active) == Keys(active))
      && Keys(r.active) == Placed(Keys(active), name)
      && r.actions == [launch, Focus(w.id)] + CommandActions(commands, w, e.command, e.path)
    ensures Dicts.Valid(active) ==> Dicts.Valid(r.active)
  {
    match Poll(polls, FreshIn(e.app, KnownIds(before, e.app)), tries)
    case None => Adoption(active, None, [launch])
    case Some((_, w)) =>
      PolledWindowIsNew(before, polls, e.app, tries);
      var adopted := e.(id := Some(w.id), title := w.title);
      PutAgree(active, name, adopted);
      PutKeepsValid(active, name, adopted);
      assert Keys(Put(active, name, adopted)) == Placed(Keys(active), name) by {
        PutKeys(active, name, adopted);
      }
      Adoption(Put(active, name, adopted), Some(w), [launch, Focus(w.id)] + CommandActions(commands, w, e.command, e.path))
  }

  /** How `recall_revive` ended. */
  datatype ReviveOutcome =
    | NotArchived
    | NoTerminalPath        // not a terminal, or no saved path
    | PathMissing           // the saved directory no longer exists
    | ReviveTimedOut        // launched, but no new window appeared in time
    | Revived(window: Window)

  datatype Revival = Revival(reg: Registry, outcome: ReviveOutcome, actions: seq<HostAction>)

  /** `recall_revive(name)`. */
  function Revive(reg: Registry, o: Oracles, launchers: set<string>, commands: Dict<string>,
                  before: Snapshot, polls: nat -> Snapshot, name: string): (r: Revival)
    ensures r.outcome == NotArchived <==> !Has(reg.archive, name)
    ensures reg.Valid() ==> r.reg.Valid()
    ensures Has(reg.archive, name) ==>
      var e := Get(reg.archive, name).entry;
      && (r.outcome == NoTerminalPath <==> !IsTerminal(e.app) || !Truthy(e.path))
      && (r.outcome == PathMissing <==> IsTerminal(e.app) && Truthy(e.path) && !o.isDir(e.path.value))
      && (r.outcome.ReviveTimedOut? || r.outcome.Revived? <==> IsTerminal(e.app) && Truthy(e.path) && o.isDir(e.path.value))
      && (r.outcome.ReviveTimedOut? || r.outcome.Revived? ==> |r.actions| >= 1 && r.actions[0] == LaunchAction(launchers, e.app, e.path.value))
    ensures !r.outcome.Revived? ==> r.reg == reg
    ensures r.outcome.ReviveTimedOut? ==> |r.actions| == 1
    ensures r.outcome.ReviveTimedOut? ==>
      var app := Get(reg.archive, name).entry.app;
      forall j | 0 <= j < ReviveTries :: NoneMatch(polls(j), FreshIn(app, KnownIds(before, app)))
    ensures r.outcome.Revived? ==>
      var app := Get(reg.archive, name).entry.app;
      var polled := Poll(polls, FreshIn(app, KnownIds(before, app)), ReviveTries);
      polled.Some? && r.outcome.window == polled.value.1
    ensures r.outcome.Revived? ==>
      var w := r.outcome.window;
      var e := Get(reg.archive, name).entry;
      && w.width > 0
      && w.id !in KnownIds(before, e.app)
      && !Has(r.reg.archive, name)
      && Has(r.reg.active, name)
      && Get(r.reg.active, name) == e.(id := Some(w.id), title := w.title)
      && AgreeExcept(reg.active, r.reg.active, {name})
      && AgreeExcept(reg.archive, r.reg.archive, {name})
      && Keys(r.reg.active) == Placed(Keys(reg.active), name)
      && Keys(r.reg.archive) == Without(Keys(reg.archive), name)
      && r.actions == [LaunchAction(launchers, e.app, e.path.value), Focus(w.id)] + CommandActions(commands, w, e.command, e.path)
  {
    if !Has(reg.archive, name) then Revival(reg, NotArchived, [])
    else
      var e := Get(reg.archive, name).entry;
      if !IsTerminal(e.app) || !Truthy(e.path) then Revival(reg, NoTerminalPath, [])
      else if !o.isDir(e.path.value) then Revival(reg, PathMissing, [])
      else
        var adoption := Adopt(reg.active, name, e, LaunchAction(launchers, e.app, e.path.value), commands, before, polls, ReviveTries);
        match adoption.window
        case None => Revival(reg, ReviveTimedOut, adoption.actions)
        case Some(w) =>
          DelAgree(reg.archive, name);
          DelKeepsValid(reg.archive, name);
          assert Keys(Del(reg.archive, name)) == Without(Keys(reg.archive), name) by {
            DelKeys(reg.archive, name);
          }
          Revival(Registry(adoption.active, Del(reg.archive, name)), Revived(w), adoption.actions)
  }

  /** A revived window, forgotten again, is back in the archive with its
      refreshed handle and title and otherwise the record it had. */
  lemma ReviveThenForget(reg: Registry, o: Oracles, launchers: set<string>, commands: Dict<string>,
                         before: Snapshot, polls: nat -> Snapshot, name: string, now: real)
    requires Revive(reg, o, launchers, commands, before, polls, name).outcome.Revived?
    ensures var r := Revive(reg, o, launchers, commands, before, polls, name);
            var w := r.outcome.window;
            var back := Forget(r.reg, name, now);
            && !Has(back.active, name)
            && Has(back.archive, name)
            && Get(back.archive, name) == Archived(Get(reg.archive, name).entry.(id := Some(w.id), title := w.title), now)
  {
  }

  /** How `restore_window` ended. */
  datatype RestoreOutcome =
    | NotSaved
    | FellBack(found: Option<Window>)   // handed over to `recall_window`
    | RestoreTimedOut
    | Restored(window: Window)

  datatype Restoration = Restoration(reg: Registry, outcome: RestoreOutcome, actions: seq<HostAction>)

  /** Hand the name to `recall_window`: focus what it finds. */
  function FallBack(reg: Registry, o: Oracles, snap: Snapshot, name: string): (r: Restoration)
    ensures r.outcome.FellBack?
    ensures r.outcome.found == RecallWindow(reg, o, snap, name).window
    ensures r.reg == RecallWindow(reg, o, snap, name).reg
    ensures reg.Valid() ==> r.reg.Valid()
    ensures r.outcome.found.Some? ==> r.actions == [Focus(r.outcome.found.value.id)]
    ensures r.outcome.found.None? ==> r.actions == []
  {
    var recalled := RecallWindow(reg, o, snap, name);
    match recalled.window
    case Some(w) => Restoration(recalled.reg, FellBack(Some(w)), [Focus(w.id)])
    case None => Restoration(recalled.reg, FellBack(None), [])
  }

  /** The launch `restore_window` would make for an entry, if it launches at all:
      the editor opened on its folder, or a terminal at its directory. */
  function RestoreLaunch(o: Oracles, launchers: set<string>, e: Entry): (a: Option<HostAction>)
    ensures a.Some? ==> Truthy(e.path) && o.isDir(e.path.value)
    ensures a.Some? && e.app == "Code" ==> a.value == Spawn("code", [e.path.value])
    ensures a.Some? && e.app != "Code" ==> IsTerminal(e.app) && a.value == LaunchAction(launchers, e.app, e.path.value)
    ensures a.None? ==> !Truthy(e.path) || !o.isDir(e.path.value) || (e.app != "Code" && !IsTerminal(e.app))
  {
    if e.app == "Code" && Truthy(e.path) then
      if !o.isDir(e.path.value) then None else Some(Spawn("code", [e.path.value]))
    else if !IsTerminal(e.app) || !Truthy(e.path) then None
    else if !o.isDir(e.path.value) then None
    else Some(LaunchAction(launchers, e.app, e.path.value))
  }

  /** `restore_window(name)`: relaunch and adopt, or fall back to `recall_window`
      when there is nothing (or nowhere) to launch. `snap` is the enumeration
      `recall_window` sees. */
  function Restore(reg: Registry, o: Oracles, launchers: set<string>, commands: Dict<string>,
                   snap: Snapshot, before: Snapshot, polls: nat -> Snapshot, name: string): (r: Restoration)
    ensures r.outcome == NotSaved <==> !Has(reg.active, name)
    ensures reg.Valid() ==> r.reg.Valid()
    ensures !Has(reg.active, name) ==> r.reg == reg && r.actions == []
    ensures Has(reg.active, name) && RestoreLaunch(o, launchers, Get(reg.active, name)).None? ==>
      r == FallBack(reg, o, snap, name)
    ensures Has(reg.active, name) && RestoreLaunch(o, launchers, Get(reg.active, name)).Some? ==>
      && (r.outcome.RestoreTimedOut? || r.outcome.Restored?)
      && |r.actions| >= 1 && r.actions[0] == RestoreLaunch(o, launchers, Get(reg.active, name)).value
    ensures r.outcome.RestoreTimedOut? ==> r.reg == reg && |r.actions| == 1
    ensures r.outcome.RestoreTimedOut? ==>
      var app := Get(reg.active, name).app;
      forall j | 0 <= j < RestoreTries :: NoneMatch(polls(j), FreshIn(app, KnownIds(before, app)))
    ensures r.outcome.Restored? ==>
      var app := Get(reg.active, name).app;
      var polled := Poll(polls, FreshIn(app, KnownIds(before, app)), RestoreTries);
      polled.Some? && r.outcome.window == polled.value.1
    ensures r.outcome.Restored? ==>
      var w := r.outcome.window;
      var e := Get(reg.active, name);
      && w.width > 0
      && w.id !in KnownIds(before, e.app)
      && Has(r.reg.active, name)
      && Get(r.reg.active, name) == e.(id := Some(w.id), title := w.title)
      && Keys(r.reg.active) == Keys(reg.active)
      && AgreeExcept(reg.active, r.reg.active, {name})
      && r.reg.archive == reg.archive
      && r.actions == [RestoreLaunch(o, launchers, e).value, Focus(w.id)] + CommandActions(commands, w, e.command, e.path)
  {
    if !Has(reg.active, name) then Restoration(reg, NotSaved, [])
    else
      var e := Get(reg.active, name);
      match RestoreLaunch(o, launchers, e)
      case None => FallBack(reg, o, snap, name)
      case Some(launch) =>
        var adoption := Adopt(reg.active, name, e, launch, commands, before, polls, RestoreTries);
        match adoption.window
        case None => Restoration(reg, RestoreTimedOut, adoption.actions)
        case Some(w) => Restoration(reg.(active := adoption.active), Restored(w), adoption.actions)
  }

  /** After a successful restore, recalling the name finds the adopted window by
      its handle, provided it is still enumerated. */
  lemma RestoredIsRecalled(reg: Registry, o: Oracles, launchers: set<string>, commands: Dict<string>,
                           snap: Snapshot, before: Snapshot, polls: nat -> Snapshot, name: string, later: Snapshot)
    requires Restore(reg, o, launchers, commands, snap, before, polls, name).outcome.Restored?
    requires FindWindowById(later, Some(Restore(reg, o, launchers, commands, snap, before, polls, name).outcome.window.id)).Some?
    ensures var r := Restore(reg, o, launchers, commands, snap, before, polls, name);
            RecallWindow(r.reg, o, later, name).window == FindWindowById(later, Some(r.outcome.window.id))
  {
  }
}
