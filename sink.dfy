/** The output sink of the writer entry points: a `fmt::Write` implemented
    by `String`. Writing appends to the text held so far and never fails,
    so the `fmt::Result` the source threads through every write is always
    `Ok` and is not modelled. */
module Writer {

  class Sink {
    /** Everything written so far. */
    var text: string

    constructor ()
      ensures text == []
    {
      text := [];
    }

    /** `fmt::Write::write_char`. */
    method WriteChar(c: char)
      modifies this
      ensures text == old(text) + [c]
    {
      text := text + [c];
    }

    /** `fmt::Write::write_str`. */
    method WriteStr(s: string)
      modifies this
      ensures text == old(text) + s
    {
      text := text + s;
    }
  }
}
