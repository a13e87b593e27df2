/** Failure-compatible result types shared by every module of the replay reader.
    Go's `error` returns, `panic` and `log.Fatal` all become an `Err` carrying an
    `Error`; what the caller does with it (return, recover, abort) is modelled
    where it happens. */
module Wrappers {

  datatype Option<+T> = None | Some(value: T)

  /** The error values the reader can produce. */
  datatype Error =
    | EOF                            // io.EOF: no byte left for a read
    | UnexpectedEOF                  // io.ErrUnexpectedEOF: input ended inside a fixed-size read
    | IndexOutOfRange                // Go runtime panic: indexing an empty slice
    | WrongMagic                     // replay.ErrWrongMagic
    | WrongReplaySettingsVer         // replay.ErrWrongReplaySettingsVer
    | WrongReplayEmbeddedMapVersion  // replay.ErrWrongReplayEmbeddedMapVersion
    | NoPacketParser(code: int, registered: bool)  // ParsePacket without a parser; the text names
                                                   // the code's NetMessageType entry when registered
    | ParserPanic(cause: Error)      // a read error turned into a panic by panicerr
    | JsonError                      // json.Unmarshal refused the block
    | Fatal(cause: Error)            // log.Fatal in the dumper: the program exits

  datatype Result<+T> = Ok(value: T) | Err(error: Error) {

    predicate IsFailure() {
      Err?
    }

    function PropagateFailure<U>(): Result<U>
      requires Err?
    {
      Err(error)
    }

    function Extract(): T
      requires Ok?
    {
      value
    }
  }
}
