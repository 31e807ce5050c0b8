/**
 * The contact form's submit button: a click marks the button as sent only
 * when the name, email and message fields all exist and are non-empty.
 * There is no network submission.
 */
module ContactForm {

  /** A field value read through optional chaining: `None` when the field is absent. */
  datatype Option<T> = None | Some(value: T)

  /** JavaScript truthiness of a `string | undefined`. */
  predicate Truthy(v: Option<string>)
  {
    v.Some? && v.value != ""
  }

  /**
   * The guard `name && email && msg`: true exactly when each of the three
   * fields is present and holds at least one character.
   */
  function ShouldSend(name: Option<string>, email: Option<string>, message: Option<string>): (send: bool)
    ensures send <==> forall f :: f in [name, email, message] ==> f.Some? && |f.value| > 0
    ensures !send ==> name == None || email == None || message == None
                      || name == Some("") || email == Some("") || message == Some("")
  {
    Truthy(name) && Truthy(email) && Truthy(message)
  }

  /** The text and the three style properties the handler sets when sending. */
  const SentText: string := "Message Sent"
  const SentOpacity: string := "0.6"
  const SentCursor: string := "default"
  const SentPointerEvents: string := "none"

  /** The submit button, whose text and style the click handler updates in place. */
  class SubmitButton {
    var text: string
    var opacity: string
    var cursor: string
    var pointerEvents: string

    /** The button shows the sent state and no longer takes pointer input. */
    predicate Sent()
      reads this
    {
      text == SentText && opacity == SentOpacity && cursor == SentCursor && pointerEvents == SentPointerEvents
    }

    constructor (text: string, opacity: string, cursor: string, pointerEvents: string)
      ensures this.text == text && this.opacity == opacity
      ensures this.cursor == cursor && this.pointerEvents == pointerEvents
    {
      this.text, this.opacity, this.cursor, this.pointerEvents := text, opacity, cursor, pointerEvents;
    }

    /**
     * The click handler: with every field filled in, the button shows the
     * sent state; with any field missing or empty, nothing changes.
     */
    method Click(name: Option<string>, email: Option<string>, message: Option<string>)
      modifies this
      ensures ShouldSend(name, email, message) ==> Sent()
      ensures !ShouldSend(name, email, message) ==>
                text == old(text) && opacity == old(opacity)
                && cursor == old(cursor) && pointerEvents == old(pointerEvents)
      ensures old(Sent()) ==> Sent()
      ensures Sent() <==> old(Sent()) || ShouldSend(name, email, message)
    {
      if Truthy(name) && Truthy(email) && Truthy(message) {
        text := SentText;
        opacity := SentOpacity;
        cursor := SentCursor;
        pointerEvents := SentPointerEvents;
      }
    }
  }
}
