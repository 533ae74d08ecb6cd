/** The text a failing call hands back. Only whether there is any matters: a failure
    that hands back none is taken for a cancellation. */
module ErrorText {
  datatype ErrorText = NoText | SomeText

  /** A check words each of its refusals. */
  function Wording(passed: bool): ErrorText
  {
    if passed then NoText else SomeText
  }

  /** A sentence of its own around another text, which may be missing. */
  function Around(detail: ErrorText): ErrorText
  {
    SomeText
  }

  /** A sentence of its own unless there already is a text. */
  function Unless(detail: ErrorText): ErrorText
  {
    if detail.NoText? then SomeText else detail
  }
}
