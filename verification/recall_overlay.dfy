/**
 * The overlay's pure helpers: how a stored command is shown (its spoken name)
 * and what it runs (its shell command), and the overlap test used to keep
 * name pills apart. Coordinates are reals; the host's floating point is not
 * modelled.
 */
module RecallOverlay {
  import opened Common
  import opened Dicts
  import opened RecallCommands

  /** Position of the first item whose value (shell command) is `shell`. */
  function FindValue(commands: Dict<string>, shell: string): (r: Option<nat>)
    ensures r.Some? ==> r.value < |commands| && commands[r.value].1 == shell
    ensures r.Some? ==> forall j | 0 <= j < r.value :: commands[j].1 != shell
    ensures r.None? ==> forall j | 0 <= j < |commands| :: commands[j].1 != shell
  {
    FirstIndex(commands, (spoken: string, s: string) => s == shell)
  }

  /** `_resolve_command_display`: a spoken name stays as it is; a shell command
      shows as the first spoken name mapped to it; anything else as itself. */
  function ResolveCommandDisplay(commands: Dict<string>, stored: string): (r: string)
    ensures Has(commands, stored) ==> r == stored
    ensures !Has(commands, stored) ==>
      forall i | 0 <= i < |commands| && commands[i].1 == stored && (forall j | 0 <= j < i :: commands[j].1 != stored) ::
        r == commands[i].0
    ensures (!Has(commands, stored) && forall j | 0 <= j < |commands| :: commands[j].1 != stored) ==> r == stored
    ensures r == stored || Has(commands, r)
  {
    if Has(commands, stored) then stored
    else
      match FindValue(commands, stored)
      case Some(i) =>
        assert Has(commands, commands[i].0) by { HasKeys(commands, commands[i].0); }
        commands[i].0
      case None => stored
  }

  /** `_resolve_command_shell`: the same three steps as `_resolve_command`. */
  function ResolveCommandShell(commands: Dict<string>, stored: string): (r: string)
    ensures Has(commands, stored) ==> r == Get(commands, stored)
    ensures !Has(commands, stored) ==> r == stored
  {
    if Has(commands, stored) then Get(commands, stored)
    else
      match FindValue(commands, stored)
      case Some(i) => commands[i].1
      case None => stored
  }

  /** The overlay's resolver and the launcher's agree on every input. */
  lemma ShellAgreesWithLauncher(commands: Dict<string>, stored: string)
    ensures ResolveCommandShell(commands, stored) == ResolveCommand(commands, stored)
  {
  }

  /** Showing a command and then resolving what is shown runs the same thing. */
  lemma ShellOfDisplay(commands: Dict<string>, stored: string)
    requires Dicts.Valid(commands)
    ensures ResolveCommandShell(commands, ResolveCommandDisplay(commands, stored)) == ResolveCommandShell(commands, stored)
  {
    if !Has(commands, stored) {
      match FindValue(commands, stored)
      case Some(i) =>
        GetAt(commands, i);
      case None =>
    }
  }

  /** A pill's rectangle: left, top, width, height. */
  datatype Rect = Rect(x: real, y: real, width: real, height: real)

  /** `_pills_overlap`: strict overlap on both axes. */
  predicate PillsOverlap(a: Rect, b: Rect) {
    && a.x < b.x + b.width && a.x + a.width > b.x
    && a.y < b.y + b.height && a.y + a.height > b.y
  }

  /** The point lies strictly inside the rectangle. */
  predicate Inside(r: Rect, px: real, py: real) {
    r.x < px < r.x + r.width && r.y < py < r.y + r.height
  }

  lemma PillsOverlapSymmetric(a: Rect, b: Rect)
    ensures PillsOverlap(a, b) <==> PillsOverlap(b, a)
  {
  }

  /** Pills that only touch along an edge do not overlap. */
  lemma TouchingPillsDoNotOverlap(a: Rect, b: Rect)
    requires a.x + a.width == b.x || b.x + b.width == a.x || a.y + a.height == b.y || b.y + b.height == a.y
    ensures !PillsOverlap(a, b)
  {
  }

  function Max(a: real, b: real): real { if a < b then b else a }
  function Min(a: real, b: real): real { if a < b then a else b }

  /** For pills of positive size, overlapping means sharing an interior point. */
  lemma OverlapIffCommonPoint(a: Rect, b: Rect)
    requires a.width > 0.0 && a.height > 0.0 && b.width > 0.0 && b.height > 0.0
    ensures PillsOverlap(a, b) <==> exists px, py :: Inside(a, px, py) && Inside(b, px, py)
  {
    if PillsOverlap(a, b) {
      var px := (Max(a.x, b.x) + Min(a.x + a.width, b.x + b.width)) / 2.0;
      var py := (Max(a.y, b.y) + Min(a.y + a.height, b.y + b.height)) / 2.0;
      assert Inside(a, px, py) && Inside(b, px, py);
    }
  }
}
