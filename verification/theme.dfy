/** The light/dark theme carried by the page root's `data-theme` attribute. */
module Theme {
  import opened Wrappers

  const Light: string := "light"
  const Dark: string := "dark"

  /** The attribute value the theme toggle writes, given the attribute's current value
      (`None` when the attribute is absent). */
  function Toggle(current: Option<string>): (next: string)
    ensures next == Light <==> current == Some(Dark)
    ensures next == Dark <==> current != Some(Dark)
  {
    if current == Some(Dark) then Light else Dark
  }

  /** Toggling twice restores either of the two themes. */
  lemma ToggleTwiceRestores(t: string)
    requires t == Light || t == Dark
    ensures Toggle(Some(Toggle(Some(t)))) == t
  {
  }

  /** Any other starting value (absent, or a string other than "dark" and "light") is not
      restored: two toggles always land on "light". */
  lemma ToggleTwiceFromOther(current: Option<string>)
    requires current != Some(Light) && current != Some(Dark)
    ensures Toggle(Some(Toggle(current))) == Light
    ensures Toggle(Some(Toggle(current))) != current.GetOr("")
  {
  }
}
