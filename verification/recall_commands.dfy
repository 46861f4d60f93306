/**
 * Window lookup over an enumeration snapshot of the host, stored-command
 * resolution and the line typed into a freshly launched terminal.
 */
module RecallCommands {
  import opened Common
  import opened Text
  import opened Dicts
  import opened RecallState

  /** A live window as the host enumerates it (its rectangle reduced to the size). */
  datatype Window = Window(id: int, title: string, width: int, height: int)

  /** A running, non-background application and its windows, in host order. */
  datatype App = App(name: string, windows: seq<Window>)

  /** One enumeration of `ui.apps(background=False)`. */
  type Snapshot = seq<App>

  /** What the program asks the host to do. */
  datatype HostAction =
    | Focus(window: int)
    | Insert(text: string)
    | Press(key: string)
    | Spawn(program: string, args: seq<string>)
    | RunLauncher(app: string, path: string)

  /** A window's place in the enumeration: application index, then window index. */
  datatype Pos = Pos(app: nat, win: nat)

  predicate ValidPos(snap: Snapshot, p: Pos) {
    p.app < |snap| && p.win < |snap[p.app].windows|
  }

  function At(snap: Snapshot, p: Pos): Window
    requires ValidPos(snap, p)
  {
    snap[p.app].windows[p.win]
  }

  /** `p` is enumerated before `q`. */
  predicate Earlier(p: Pos, q: Pos) {
    p.app < q.app || (p.app == q.app && p.win < q.win)
  }

  /** The window conditions of the three nested scans of the program. */
  datatype Criterion =
    | WithId(id: int)                                            // find_window_by_id
    | Resembles(app: string, path: Option<string>, title: string) // rematch_window
    | FreshIn(app: string, known: set<int>)                      // the adoption polls

  predicate Matches(c: Criterion, app: App, w: Window) {
    match c
    case WithId(id) => w.id == id
    case Resembles(name, path, title) =>
      && app.name == name
      && w.width > 0 && w.height > 0
      && ((Truthy(path) && Contains(w.title, path.value)) || (title != "" && StartsWith(w.title, title)))
    case FreshIn(name, known) => app.name == name && w.id !in known && w.width > 0
  }

  predicate MatchesAt(snap: Snapshot, c: Criterion, p: Pos)
    requires ValidPos(snap, p)
  {
    Matches(c, snap[p.app], At(snap, p))
  }

  /** `p` is the first window of the enumeration meeting `c`. */
  ghost predicate IsFirst(snap: Snapshot, c: Criterion, p: Pos) {
    && ValidPos(snap, p)
    && MatchesAt(snap, c, p)
    && forall q | ValidPos(snap, q) && Earlier(q, p) :: !MatchesAt(snap, c, q)
  }

  /** No window of the enumeration meets `c`. */
  ghost predicate NoneMatch(snap: Snapshot, c: Criterion) {
    forall q | ValidPos(snap, q) :: !MatchesAt(snap, c, q)
  }

  /** The nested `for a in apps: for w in a.windows()` scan, resumed at `from`. */
  function ScanFrom(snap: Snapshot, c: Criterion, from: Pos): (r: Option<Pos>)
    requires from.app <= |snap| && (from.app < |snap| ==> from.win <= |snap[from.app].windows|)
    ensures r.Some? ==> ValidPos(snap, r.value) && !Earlier(r.value, from) && MatchesAt(snap, c, r.value)
    ensures r.Some? ==> forall q | ValidPos(snap, q) && !Earlier(q, from) && Earlier(q, r.value) :: !MatchesAt(snap, c, q)
    ensures r.None? ==> forall q | ValidPos(snap, q) && !Earlier(q, from) :: !MatchesAt(snap, c, q)
    decreases |snap| - from.app, if from.app < |snap| then |snap[from.app].windows| - from.win else 0
  {
    if from.app == |snap| then None
    else if from.win == |snap[from.app].windows| then ScanFrom(snap, c, Pos(from.app + 1, 0))
    else if MatchesAt(snap, c, from) then Some(from)
    else ScanFrom(snap, c, Pos(from.app, from.win + 1))
  }

  /** The first window of the enumeration meeting `c`, if any. */
  function FirstMatch(snap: Snapshot, c: Criterion): (r: Option<Pos>)
    ensures r.Some? ==> IsFirst(snap, c, r.value)
    ensures r.None? <==> NoneMatch(snap, c)
  {
    ScanFrom(snap, c, Pos(0, 0))
  }

  /** `find_window_by_id`: None for a null id, else the first window carrying exactly that id. */
  function FindWindowById(snap: Snapshot, id: Option<int>): (r: Option<Window>)
    ensures id.None? ==> r.None?
    ensures r.Some? ==> id == Some(r.value.id)
    ensures r.Some? ==> exists p :: IsFirst(snap, WithId(id.value), p) && At(snap, p) == r.value
    ensures id.Some? ==> (r.None? <==> forall p | ValidPos(snap, p) :: At(snap, p).id != id.value)
  {
    match id
    case None => None
    case Some(i) =>
      match FirstMatch(snap, WithId(i))
      case None => None
      case Some(p) => Some(At(snap, p))
  }

  /** `rematch_window`: the first sized window of the entry's application whose
      title contains the saved path or begins with the saved title. */
  function RematchWindow(snap: Snapshot, info: Entry): (r: Option<Window>)
    ensures r.Some? ==> exists p :: IsFirst(snap, Resembles(info.app, info.path, info.title), p) && At(snap, p) == r.value
    ensures r.Some? ==> r.value.width > 0 && r.value.height > 0
    ensures r.Some? ==> (Truthy(info.path) && Contains(r.value.title, info.path.value))
                        || (info.title != "" && StartsWith(r.value.title, info.title))
    ensures r.None? <==> NoneMatch(snap, Resembles(info.app, info.path, info.title))
  {
    match FirstMatch(snap, Resembles(info.app, info.path, info.title))
    case None => None
    case Some(p) => Some(At(snap, p))
  }

  /** Only windows of applications named like the entry's are ever rematched. */
  lemma RematchOnlySameApp(snap: Snapshot, info: Entry)
    requires RematchWindow(snap, info).Some?
    ensures exists p :: ValidPos(snap, p) && snap[p.app].name == info.app && At(snap, p) == RematchWindow(snap, info).value
  {
  }

  /** With neither a saved path nor a saved title nothing can be rematched. */
  lemma RematchNeedsPathOrTitle(snap: Snapshot, info: Entry)
    requires !Truthy(info.path) && info.title == ""
    ensures RematchWindow(snap, info).None?
  {
  }

  /** `_resolve_command`: key lookup, then the (identity) reverse lookup by value,
      then the stored text itself. */
  function ResolveCommand(commands: Dict<string>, stored: string): (r: string)
    ensures Has(commands, stored) ==> r == Get(commands, stored)
    ensures !Has(commands, stored) ==> r == stored
  {
    if Has(commands, stored) then Get(commands, stored)
    else
      match FirstIndex(commands, (spoken: string, shell: string) => shell == stored)
      case Some(i) => commands[i].1
      case None => stored
  }

  /** `_run_when_ready`: the text typed into the window, `cd <path> && <command>`
      when a path is known. */
  function TypedLine(command: string, path: Option<string>): (line: string)
    ensures Truthy(path) ==> |line| > |command| && line[|line| - |command|..] == command
    ensures Truthy(path) ==> StartsWith(line, "cd " + path.value + " && ")
    ensures Truthy(path) ==> |line| == |"cd " + path.value + " && "| + |command|
    ensures !Truthy(path) ==> line == command
  {
    if Truthy(path) then "cd " + path.value + " && " + command else command
  }

  /** `_run_when_ready` as host actions: focus, type the line, then one Enter. */
  function RunWhenReady(w: Window, command: string, path: Option<string>): (acts: seq<HostAction>)
    ensures |acts| == 3 && acts[0] == Focus(w.id) && acts[1] == Insert(TypedLine(command, path))
    ensures acts[|acts| - 1] == Press("enter")
    ensures forall i | 0 <= i < |acts| - 1 :: !acts[i].Press?
  {
    [Focus(w.id), Insert(TypedLine(command, path)), Press("enter")]
  }
}
