/**
 * Terminal detection, the title-to-directory parser and the launch decision.
 * The file system is reached only through the `Oracles` passed in.
 */
module RecallTerminal {
  import opened Common
  import opened Text

  /** `os.path.isdir` and `os.path.expanduser`, as seen at the moment of the call. */
  datatype Oracles = Oracles(isDir: string -> bool, expandUser: string -> string)

  /** `TERMINAL_APPS`: application names compared case-sensitively. */
  const TerminalApps: set<string> := {
    "Gnome-terminal", "Mate-terminal", "kitty", "Alacritty",
    "foot", "xfce4-terminal", "Terminator", "Tilix",
    "Terminal", "iTerm2"
  }

  predicate IsTerminal(app: string) {
    app in TerminalApps
  }

  /** The list holds ten distinct names and matching is case-sensitive. */
  lemma TerminalAppsExact()
    ensures |TerminalApps| == 10
    ensures IsTerminal("kitty") && !IsTerminal("Kitty") && !IsTerminal("gnome-terminal")
  {
  }

  /** Index of the first `c` in `s` at or after `from`. */
  function IndexFrom(s: string, c: char, from: nat): (r: Option<nat>)
    requires from <= |s|
    ensures r.Some? ==> from <= r.value < |s| && s[r.value] == c
    ensures r.Some? ==> forall i | from <= i < r.value :: s[i] != c
    ensures r.None? ==> forall i | from <= i < |s| :: s[i] != c
    decreases |s| - from
  {
    if from == |s| then None
    else if s[from] == c then Some(from)
    else IndexFrom(s, c, from + 1)
  }

  /** Strategy 1, the search for `@[^:]*:\s*(.+)$`: the leftmost `@`, the first
      `:` after it, and — when at least one character follows that colon — the
      rest of the title, trimmed. (A later `@` cannot do better: it has no colon
      after it when the first has none, and the same last-character colon.) */
  function PromptCandidate(title: string): Option<string>
  {
    match IndexFrom(title, '@', 0)
    case None => None
    case Some(at) =>
      match IndexFrom(title, ':', at + 1)
      case None => None
      case Some(colon) =>
        if colon + 1 < |title| then Some(AfterColon(title, colon)) else None
  }

  /** What follows position `colon`, trimmed: the prompt pattern's capture. */
  function AfterColon(title: string, colon: nat): string
    requires colon < |title|
  {
    Strip(title[colon + 1..])
  }

  /** The search finds `c` at `k` when `k` holds the first `c` from `from` on. */
  lemma IndexFromAt(s: string, c: char, from: nat, k: nat)
    requires from <= k < |s| && s[k] == c
    requires forall i | from <= i < k :: s[i] != c
    ensures IndexFrom(s, c, from) == Some(k)
  {
    var r := IndexFrom(s, c, from);
    assert r.Some? && r.value <= k;
  }

  /** The prompt pattern matches at the first `@` and the first `:` after it,
      yielding the trimmed remainder when something follows the colon. */
  lemma PromptCandidateAt(title: string, at: nat, colon: nat)
    requires at < colon < |title| - 1
    requires title[at] == '@' && forall i | 0 <= i < at :: title[i] != '@'
    requires title[colon] == ':' && forall i | at < i < colon :: title[i] != ':'
    ensures PromptCandidate(title) == Some(AfterColon(title, colon))
  {
    IndexFromAt(title, '@', 0, at);
    IndexFromAt(title, ':', at + 1, colon);
    PromptCandidateOf(title, at, colon);
  }

  lemma PromptCandidateOf(title: string, at: nat, colon: nat)
    requires at < |title| && IndexFrom(title, '@', 0) == Some(at)
    requires IndexFrom(title, ':', at + 1) == Some(colon) && colon + 1 < |title|
    ensures PromptCandidate(title) == Some(AfterColon(title, colon))
  {
  }

  /** The prompt pattern matches exactly when some `@` is followed, later, by a
      `:` that is not the title's last character. */
  lemma {:induction false} PromptMatchIff(title: string)
    ensures PromptCandidate(title).Some? <==>
      exists at, colon | 0 <= at < colon < |title| - 1 :: title[at] == '@' && title[colon] == ':'
  {
    if exists at, colon | 0 <= at < colon < |title| - 1 :: title[at] == '@' && title[colon] == ':' {
      var at', colon' :| 0 <= at' < colon' < |title| - 1 && title[at'] == '@' && title[colon'] == ':';
      var first := IndexFrom(title, '@', 0);
      assert first.Some? && first.value <= at';
      var c := IndexFrom(title, ':', first.value + 1);
      assert c.Some? && c.value <= colon';
    }
  }

  /** A candidate the segment and token strategies consider: starts with `/` or `~`. */
  predicate PathLike(s: string) {
    |s| > 0 && (s[0] == '/' || s[0] == '~')
  }

  /** A candidate qualifies: path-like and an existing directory once expanded. */
  predicate Qualifies(o: Oracles, cand: string) {
    PathLike(cand) && o.isDir(o.expandUser(cand))
  }

  /** Index of the first qualifying candidate. */
  function FirstQualifying(o: Oracles, cands: seq<string>): (r: Option<nat>)
    ensures r.Some? ==> r.value < |cands| && Qualifies(o, cands[r.value])
    ensures r.Some? ==> forall j | 0 <= j < r.value :: !Qualifies(o, cands[j])
    ensures r.None? ==> forall j | 0 <= j < |cands| :: !Qualifies(o, cands[j])
  {
    if cands == [] then None
    else if Qualifies(o, cands[0]) then Some(0)
    else
      match FirstQualifying(o, cands[1..])
      case None => None
      case Some(i) => Some(i + 1)
  }

  function StripAll(ss: seq<string>): (r: seq<string>)
    ensures |r| == |ss| && forall i | 0 <= i < |ss| :: r[i] == Strip(ss[i])
  {
    seq(|ss|, i requires 0 <= i < |ss| => Strip(ss[i]))
  }

  /** Strategy 2's candidates: the title split on em dash and pipe, each piece
      trimmed. (`re.split(r"\s*[—|]\s*")` followed by `strip()` yields the same
      trimmed pieces: the whitespace the pattern swallows is stripped anyway.) */
  function Segments(title: string): (segs: seq<string>)
    ensures |segs| >= 1
    ensures forall i | 0 <= i < |segs| :: Trimmed(segs[i])
    ensures exists pieces ::
      && SeparatedBy(title, pieces)
      && (forall i | 0 <= i < |pieces| :: SeparatorFree(pieces[i]))
      && |segs| == |pieces|
      && forall i | 0 <= i < |segs| :: segs[i] == Strip(pieces[i])
  {
    var pieces := SplitSeparators(title);
    StripAll(pieces)
  }

  /** Strategy 3's candidates: the whitespace-separated tokens. */
  function Tokens(title: string): (toks: seq<string>)
    ensures forall i | 0 <= i < |toks| :: IsWord(toks[i])
    ensures Tokenizes(title, toks)
  {
    Words(title)
  }

  function ExpandAt(o: Oracles, cands: seq<string>, i: Option<nat>): (r: Option<string>)
    requires i.Some? ==> i.value < |cands|
    ensures r.Some? <==> i.Some?
    ensures i.Some? ==> r.value == o.expandUser(cands[i.value])
  {
    if i.Some? then Some(o.expandUser(cands[i.value])) else None
  }

  /** `_parse_title_path`: the three strategies in order, the first candidate
      that is an existing directory after `~`-expansion winning. */
  function ParseTitlePath(o: Oracles, title: string): (r: Option<string>)
    ensures r.Some? ==> o.isDir(r.value)
    ensures r.Some? ==>
      || (PromptCandidate(title).Some? && r.value == o.expandUser(PromptCandidate(title).value))
      || (exists i | 0 <= i < |Segments(title)| :: PathLike(Segments(title)[i]) && r.value == o.expandUser(Segments(title)[i]))
      || (exists i | 0 <= i < |Tokens(title)| :: PathLike(Tokens(title)[i]) && r.value == o.expandUser(Tokens(title)[i]))
  {
    var prompt := PromptCandidate(title);
    if prompt.Some? && o.isDir(o.expandUser(prompt.value)) then Some(o.expandUser(prompt.value))
    else
      var segs := Segments(title);
      var s := FirstQualifying(o, segs);
      if s.Some? then ExpandAt(o, segs, s)
      else
        var toks := Tokens(title);
        ExpandAt(o, toks, FirstQualifying(o, toks))
  }

  /** A prompt-pattern directory wins over every segment and token. */
  lemma PromptStrategyFirst(o: Oracles, title: string)
    requires PromptCandidate(title).Some?
    requires o.isDir(o.expandUser(PromptCandidate(title).value))
    ensures ParseTitlePath(o, title) == Some(o.expandUser(PromptCandidate(title).value))
  {
  }

  /** Without a prompt match, the first qualifying segment wins over every token. */
  lemma SegmentStrategySecond(o: Oracles, title: string, i: nat)
    requires PromptCandidate(title).None? || !o.isDir(o.expandUser(PromptCandidate(title).value))
    requires i < |Segments(title)| && Qualifies(o, Segments(title)[i])
    requires forall j | 0 <= j < i :: !Qualifies(o, Segments(title)[j])
    ensures ParseTitlePath(o, title) == Some(o.expandUser(Segments(title)[i]))
  {
    var s := FirstQualifying(o, Segments(title));
    assert s == Some(i);
  }

  /** With neither a prompt match nor a qualifying segment, the first
      qualifying token wins. */
  lemma TokenStrategyThird(o: Oracles, title: string, i: nat)
    requires PromptCandidate(title).None? || !o.isDir(o.expandUser(PromptCandidate(title).value))
    requires forall j | 0 <= j < |Segments(title)| :: !Qualifies(o, Segments(title)[j])
    requires i < |Tokens(title)| && Qualifies(o, Tokens(title)[i])
    requires forall j | 0 <= j < i :: !Qualifies(o, Tokens(title)[j])
    ensures ParseTitlePath(o, title) == Some(o.expandUser(Tokens(title)[i]))
  {
    assert FirstQualifying(o, Segments(title)).None?;
    var t := FirstQualifying(o, Tokens(title));
    assert t == Some(i);
    assert ParseTitlePath(o, title) == ExpandAt(o, Tokens(title), t);
  }

  /** Only when no strategy yields a directory is the result None. */
  lemma ParseNoneIffNothingQualifies(o: Oracles, title: string)
    ensures ParseTitlePath(o, title).None? <==>
      && (PromptCandidate(title).None? || !o.isDir(o.expandUser(PromptCandidate(title).value)))
      && (forall j | 0 <= j < |Segments(title)| :: !Qualifies(o, Segments(title)[j]))
      && (forall j | 0 <= j < |Tokens(title)| :: !Qualifies(o, Tokens(title)[j]))
  {
  }

  /** `detect_terminal_path`: the parser applied to the window title. */
  function DetectTerminalPath(o: Oracles, title: string): (r: Option<string>)
    ensures r == ParseTitlePath(o, title)
    ensures r.Some? ==> o.isDir(r.value)
  {
    ParseTitlePath(o, title)
  }

  /** How `_launch_terminal` starts a terminal. */
  datatype Launch =
    | Registered(app: string, path: string)              // the OS-specific launcher for `app`
    | Generic(program: string, args: seq<string>)        // `ui.launch` fallback

  /** `_launch_terminal`: the registered launcher if any, else the lower-cased
      application name with a single working-directory argument. */
  function LaunchTerminal(launchers: set<string>, app: string, path: string): (l: Launch)
    ensures l.Registered? <==> app in launchers
    ensures l.Registered? ==> l == Registered(app, path)
    ensures l.Generic? ==> l.program == Lower(app) && l.args == ["--working-directory=" + path]
  {
    if app in launchers then Registered(app, path)
    else Generic(Lower(app), ["--working-directory=" + path])
  }
}
