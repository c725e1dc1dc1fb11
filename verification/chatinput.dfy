/** The message composer (`ChatInput`): when submitting sends, what Enter
    does, when the send button is enabled, and how tall the text area
    grows. */
module ChatInput {
  import opened Prelude
  import opened Entities
  import opened Text
  import Messages

  /** The text being typed and the component's `disabled` prop. */
  datatype Composer = Composer(buffer: string, disabled: bool)

  /** What a submit did: the composer afterwards and the texts handed to
      `onSend`, in call order. */
  datatype Submitted = Submitted(composer: Composer, sent: seq<string>)

  /** `handleSubmit`: nothing when the text is blank or the input disabled;
      otherwise hands the text, untrimmed, to `onSend` once and empties the
      buffer. */
  function HandleSubmit(c: Composer): (r: Submitted)
    ensures Blank(c.buffer) || c.disabled ==> r == Submitted(c, [])
    ensures !Blank(c.buffer) && !c.disabled ==>
              r.sent == [c.buffer] && r.composer == c.(buffer := "")
  {
    if Trim(c.buffer) == "" || c.disabled then Submitted(c, [])
    else Submitted(c.(buffer := ""), [c.buffer])
  }

  /** What a key press did, and whether its default action was prevented. */
  datatype KeyHandled = KeyHandled(composer: Composer, sent: seq<string>, preventDefault: bool)

  /** `handleKeyDown`: Enter without Shift prevents the newline and
      submits; every other key, Shift+Enter included, is left to the text
      area. */
  function HandleKeyDown(c: Composer, key: string, shiftKey: bool): (r: KeyHandled)
    ensures r.preventDefault <==> key == "Enter" && !shiftKey
    ensures r.preventDefault ==> Submitted(r.composer, r.sent) == HandleSubmit(c)
    ensures !r.preventDefault ==> r.composer == c && r.sent == []
  {
    if key == "Enter" && !shiftKey then
      var s := HandleSubmit(c);
      KeyHandled(s.composer, s.sent, true)
    else KeyHandled(c, [], false)
  }

  /** The send button's `disabled={!message.trim() || disabled}`, negated. */
  predicate SendButtonEnabled(c: Composer) {
    !(Trim(c.buffer) == "" || c.disabled)
  }

  /** The button is enabled exactly when submitting would send. */
  lemma ButtonMatchesSubmit(c: Composer)
    ensures SendButtonEnabled(c) <==> |HandleSubmit(c).sent| == 1
    ensures !SendButtonEnabled(c) <==> HandleSubmit(c).composer == c && HandleSubmit(c).sent == []
  {
  }

  /** The maximum height of the text area, in pixels. */
  const MaxHeight: int := 120

  /** The text area's height: its content height, capped at 120 pixels. */
  function TextareaHeight(scrollHeight: int): (h: int)
    ensures h <= MaxHeight && h <= scrollHeight
    ensures h == scrollHeight || h == MaxHeight
  {
    if scrollHeight < MaxHeight then scrollHeight else MaxHeight
  }

  /** Whatever the composer sends, the open thread stores: with both ends of
      the thread known and a successful insert, the text handed to
      `onSend` is never discarded as blank, and the stored row carries it
      trimmed. */
  lemma SubmittedTextIsStored(c: Composer, table: seq<Message>, user: Option<string>,
                              peer: Option<string>, newId: string, now: Timestamp)
    requires Messages.Active(user, peer)
    requires |HandleSubmit(c).sent| == 1
    ensures var text := HandleSubmit(c).sent[0];
            var (table', outcome) := Messages.SendMessage(table, user, peer, text, Ok, newId, now);
            && outcome.Inserted?
            && outcome.row.content == Trim(c.buffer)
            && table' == table + [outcome.row]
  {
  }
}
