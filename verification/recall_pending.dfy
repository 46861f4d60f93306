/**
 * The two-step voice commands: `recall_combine_start`, `recall_rename_start`
 * and `recall_alias_start` remember a mode and a name and enable the pending
 * input context; `recall_pending_finish` takes the next utterance, clears the
 * pending state and dispatches; `hide_recall_overlay` cancels.
 */
module RecallPending {
  import opened Text
  import opened Dicts
  import opened RecallState
  import opened Recall

  /** The registry together with the pending-command state. */
  datatype Session = Session(reg: Registry, pending: Pending)

  /** What the speech engine hands over: a string, or a phrase of words. */
  datatype Spoken = Said(text: string) | Phrase(words: seq<string>)

  /** The utterance as one trimmed string: words joined with single spaces. */
  function Normalize(s: Spoken): (t: string)
    ensures Trimmed(t)
    ensures s.Said? && Trimmed(s.text) ==> t == s.text
    ensures s.Phrase? && s.words == [] ==> t == ""
  {
    match s
    case Said(text) => Strip(text)
    case Phrase(words) => Strip(JoinSpace(words))
  }

  /** A phrase of words becomes those words joined by single spaces, from
      which splitting on whitespace gives the words back. */
  lemma NormalizePhrase(words: seq<string>)
    requires AllWords(words)
    ensures Normalize(Phrase(words)) == JoinSpace(words)
    ensures Words(Normalize(Phrase(words))) == words
  {
    JoinSpaceTokenizes(words);
    WordsJoinSpace(words);
  }

  /** The pending state's invariant: the input context is enabled exactly
      while a command is pending, and no name is held without one. */
  predicate WellFormed(p: Pending) {
    && (p.tagged <==> p.mode != NoMode)
    && (p.mode == NoMode ==> p.name == "")
  }

  /** Begin a two-step command on a saved name; an unknown name is ignored. */
  function Begin(s: Session, mode: Mode, name: string): (r: Session)
    requires mode != NoMode
    ensures r.reg == s.reg
    ensures Has(s.reg.active, name) ==> r.pending == Pending(mode, name, true)
    ensures !Has(s.reg.active, name) ==> r == s
    ensures WellFormed(s.pending) ==> WellFormed(r.pending)
  {
    if Has(s.reg.active, name) then s.(pending := Pending(mode, name, true)) else s
  }

  /** `recall_combine_start(primary)`. */
  function CombineStart(s: Session, primary: string): (r: Session)
    ensures Has(s.reg.active, primary) ==> r.pending.mode == CombineMode && r.pending.name == primary && r.pending.tagged
    ensures !Has(s.reg.active, primary) ==> r == s
    ensures r.reg == s.reg
  {
    Begin(s, CombineMode, primary)
  }

  /** `recall_rename_start(name)`. */
  function RenameStart(s: Session, name: string): (r: Session)
    ensures Has(s.reg.active, name) ==> r.pending.mode == RenameMode && r.pending.name == name && r.pending.tagged
    ensures !Has(s.reg.active, name) ==> r == s
    ensures r.reg == s.reg
  {
    Begin(s, RenameMode, name)
  }

  /** The pending command is complete enough to dispatch. */
  predicate Dispatches(p: Pending, text: string) {
    p.mode != NoMode && p.name != "" && text != ""
  }

  /** `recall_pending_finish(spoken)`: always clears the pending state; runs the
      pending command only when mode, name and utterance are all non-empty. */
  function Finish(s: Session, forbidden: map<string, string>, spoken: Spoken): (r: Session)
    ensures r.pending == CancelPending()
    ensures !Dispatches(s.pending, Normalize(spoken)) ==> r.reg == s.reg
    ensures Dispatches(s.pending, Normalize(spoken)) && s.pending.mode == CombineMode ==>
      r.reg == Combine(s.reg, s.pending.name, Normalize(spoken))
    ensures Dispatches(s.pending, Normalize(spoken)) && s.pending.mode == RenameMode ==>
      r.reg == Rename(s.reg, forbidden, s.pending.name, Normalize(spoken))
    ensures Dispatches(s.pending, Normalize(spoken)) && s.pending.mode == AliasMode ==>
      r.reg == AddAlias(s.reg, forbidden, s.pending.name, Normalize(spoken))
  {
    var text := Normalize(spoken);
    var name := s.pending.name;
    var reg :=
      if !Dispatches(s.pending, text) then s.reg
      else match s.pending.mode
        case CombineMode => Combine(s.reg, name, text)
        case RenameMode => Rename(s.reg, forbidden, name, text)
        case AliasMode => AddAlias(s.reg, forbidden, name, text);
    Session(reg, CancelPending())
  }

  /** `recall_alias_start(name)`: while an alias is already pending the name is
      taken as the alias itself; otherwise an alias command begins. */
  function AliasStart(s: Session, forbidden: map<string, string>, name: string): (r: Session)
    ensures s.pending.mode == AliasMode && s.pending.name != "" ==> r == Finish(s, forbidden, Said(name))
    ensures !(s.pending.mode == AliasMode && s.pending.name != "") ==>
      && r.reg == s.reg
      && (Has(s.reg.active, name) ==> r.pending == Pending(AliasMode, name, true))
      && (!Has(s.reg.active, name) ==> r == s)
  {
    if s.pending.mode == AliasMode && s.pending.name != "" then Finish(s, forbidden, Said(name))
    else Begin(s, AliasMode, name)
  }

  /** `hide_recall_overlay`: cancel whatever is pending. */
  function HideOverlay(s: Session): (r: Session)
    ensures r.reg == s.reg && r.pending == CancelPending()
  {
    s.(pending := CancelPending())
  }

  /** Every transition keeps the pending state well formed. */
  lemma TransitionsKeepWellFormed(s: Session, forbidden: map<string, string>, name: string, spoken: Spoken)
    requires WellFormed(s.pending)
    ensures WellFormed(CombineStart(s, name).pending)
    ensures WellFormed(RenameStart(s, name).pending)
    ensures WellFormed(AliasStart(s, forbidden, name).pending)
    ensures WellFormed(Finish(s, forbidden, spoken).pending)
    ensures WellFormed(HideOverlay(s).pending)
  {
  }

  /** A second utterance after a finished command changes nothing. */
  lemma FinishTwice(s: Session, forbidden: map<string, string>, a: Spoken, b: Spoken)
    ensures var r := Finish(s, forbidden, a);
            Finish(r, forbidden, b) == r
  {
  }

  /** Two steps are one: starting a combine on `primary` and then saying a
      name merges that name into `primary`. */
  lemma CombineInTwoSteps(s: Session, forbidden: map<string, string>, primary: string, spoken: Spoken)
    requires Has(s.reg.active, primary) && primary != ""
    requires Normalize(spoken) != ""
    ensures Finish(CombineStart(s, primary), forbidden, spoken) ==
            Session(Combine(s.reg, primary, Normalize(spoken)), CancelPending())
  {
  }

  /** Starting a rename and then saying the new name renames. */
  lemma RenameInTwoSteps(s: Session, forbidden: map<string, string>, name: string, spoken: Spoken)
    requires Has(s.reg.active, name) && name != ""
    requires Normalize(spoken) != ""
    ensures Finish(RenameStart(s, name), forbidden, spoken) ==
            Session(Rename(s.reg, forbidden, name, Normalize(spoken)), CancelPending())
  {
  }

  /** Saying "alias" on a name and then "alias" on a second word (as the
      grammar hears it) adds the second word, trimmed, as an alias of the first. */
  lemma AliasInTwoSteps(s: Session, forbidden: map<string, string>, name: string, alias: string)
    requires s.pending.mode != AliasMode
    requires Has(s.reg.active, name) && name != ""
    requires Strip(alias) != ""
    ensures AliasStart(AliasStart(s, forbidden, name), forbidden, alias) ==
            Session(AddAlias(s.reg, forbidden, name, Strip(alias)), CancelPending())
  {
  }
}
