/** The `ArrowButton` component: a button whose `disabled` attribute is
    `!!isDisabled` and whose click handler is the caller's. A disabled
    button dispatches no click, so its handler never runs. */
module ArrowButton {
  import opened JsValues

  /** The cursor after the user presses a button: `current` when the button
      is disabled, otherwise `handled`, the value its handler would set. */
  function Press(isDisabled: JsValue, current: int, handled: int): (r: int)
    ensures Truthy(isDisabled) ==> r == current
    ensures !Truthy(isDisabled) ==> r == handled
    ensures r == current || r == handled
  {
    if Truthy(isDisabled) then current else handled
  }
}
