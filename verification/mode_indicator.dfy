/**
 * The speech-mode indicator's decisions: which mode the active modes amount
 * to, and which colour shows for it.
 */
module ModeIndicator {

  /** `COLORS`: RGB hex per indicator mode. */
  const Colors: map<string, string> := map[
    "mute" := "000000",
    "sleep" := "808080",
    "dictation" := "ffd700",
    "mixed" := "3cb371",
    "command" := "6495ed",
    "other" := "f8f8ff"
  ]

  /** The mode names `_on_update_contexts` looks at. */
  const Significant: set<string> := {"sleep", "dictation", "command"}

  /** `_on_update_contexts`: sleep wins; dictation is "mixed" alongside
      command; command alone is "command"; anything else is "other". */
  function ModeOf(modes: set<string>): (m: string)
    ensures m in Colors && m != "mute"
    ensures m == "sleep" <==> "sleep" in modes
    ensures m == "mixed" <==> "sleep" !in modes && "dictation" in modes && "command" in modes
    ensures m == "dictation" <==> "sleep" !in modes && "dictation" in modes && "command" !in modes
    ensures m == "command" <==> "sleep" !in modes && "dictation" !in modes && "command" in modes
    ensures m == "other" <==> modes * Significant == {}
  {
    if "sleep" in modes then
      assert "sleep" in modes * Significant;
      "sleep"
    else if "dictation" in modes then
      assert "dictation" in modes * Significant;
      if "command" in modes then "mixed" else "dictation"
    else if "command" in modes then
      assert "command" in modes * Significant;
      "command"
    else
      assert forall x | x in Significant :: x !in modes;
      "other"
  }

  /** Only the three significant modes matter. */
  lemma ModeOfIgnoresOthers(modes: set<string>)
    ensures ModeOf(modes) == ModeOf(modes * Significant)
  {
  }

  /** `get_mode_color`: the mute colour when no microphone is selected, else
      the mode's colour, unknown modes showing the "other" colour. */
  function ModeColor(microphone: string, mode: string): (c: string)
    ensures microphone == "None" ==> c == Colors["mute"]
    ensures microphone != "None" && mode in Colors ==> c == Colors[mode]
    ensures microphone != "None" && mode !in Colors ==> c == Colors["other"]
    ensures c in Colors.Values
  {
    if microphone == "None" then Colors["mute"]
    else if mode in Colors then Colors[mode]
    else Colors["other"]
  }

  /** The indicator shows black exactly when the microphone is off: no mode
      the classifier produces has the mute colour. */
  lemma MuteColourIffNoMicrophone(microphone: string, modes: set<string>)
    ensures ModeColor(microphone, ModeOf(modes)) == Colors["mute"] <==> microphone == "None"
  {
  }
}
