/** Success/failure values that stand in for Go `error` returns and C++ exceptions. */
module Results {

  datatype Option<+T> = None | Some(value: T)

  /** A decoded value or the reason decoding stopped; usable with `:-`. */
  datatype Result<+T, +E> = Ok(value: T) | Err(error: E) {

    predicate IsFailure() {
      Err?
    }

    function PropagateFailure<U>(): Result<U, E>
      requires Err?
    {
      Err(error)
    }

    function Extract(): T
      requires Ok?
    {
      value
    }
  }

  /** Each item read in order; the first that does not read stops the loop with its error. */
  function ReadEach<S, T, E>(items: seq<S>, read: S -> Result<T, E>): (r: Result<seq<T>, E>)
    ensures r.Ok? <==> forall i | 0 <= i < |items| :: read(items[i]).Ok?
    ensures r.Ok? ==> |r.value| == |items| && forall i | 0 <= i < |items| :: read(items[i]) == Ok(r.value[i])
    ensures r.Err? ==> exists i | 0 <= i < |items| ::
              (forall j | 0 <= j < i :: read(items[j]).Ok?) && read(items[i]) == Err(r.error)
  {
    if items == [] then Ok([])
    else
      match read(items[0])
      case Err(e) =>
        assert read(items[0]) == Err(e);
        Err(e)
      case Ok(d) =>
        match ReadEach(items[1..], read)
        case Err(e) =>
          ghost var i :| 0 <= i < |items| - 1 &&
            (forall j | 0 <= j < i :: read(items[1..][j]).Ok?) && read(items[1..][i]) == Err(e);
          assert forall j | 0 <= j < i + 1 :: read(items[j]).Ok? by {
            forall j | 0 <= j < i + 1 ensures read(items[j]).Ok? {
              if j > 0 { assert items[j] == items[1..][j - 1]; }
            }
          }
          assert read(items[i + 1]) == Err(e);
          Err(e)
        case Ok(ds) =>
          assert forall i | 1 <= i < |items| :: items[i] == items[1..][i - 1];
          Ok([d] + ds)
  }

  /**
   * The errors the Go package returns. Messages are reduced to their kind;
   * `Panic` stands for a Go runtime panic (slice or index out of range), which
   * the source does not turn into an error value.
   */
  datatype GoError =
    | BadEnvelope(tag: string)                       // "invalid package, should be <Tg>...</Tg>"
    | BadPartCount(expected: nat)                    // "invalid package, should contain N parts"
    | BadPartMultiple(multiple: nat)                 // token count not a multiple of 12 / 4
    | NoCommands                                     // "should contain at least one command"
    | BadCrcToken                                    // "cannot convert CRC to integer"
    | CrcMismatch(received: int, calculated: int)    // "invalid CRC, received: ..., calculated: ..."
    | BadField(field: string)                        // "cannot convert <field> to ..."
    | BadDefinition(what: string)                    // "invalid device definition"
    | BadBase64                                      // "cannot decode base64 data"
    | InvalidResponse                                // "invalid packet response"
    | InvalidPacketType                              // "invalid packet type, should be PaPacket, ..."
    | NotInitialized                                 // "tcp comm not initialized"
    | AuthTimeout                                    // "authentication timeout"
    | DialFailed                                     // the error returned by net.Dial
    | Panic(what: string)
    | NotText                                        // not raised by Go: see Strings.PairText

  /**
   * The exceptions the C++ library lets escape: its own MalformedException and
   * CrcException, and the standard `invalid_argument` / `out_of_range` thrown
   * by `std::stoi`, `std::stoll` and `substr` where the code does not catch them.
   */
  datatype CppError =
    | Malformed(what: string)
    | CrcError(received: int, calculated: int)
    | InvalidArgument
    | OutOfRange
    | NotText        // not raised by C++: see Strings.PairText

  /** `catch (const std::invalid_argument &) { throw MalformedException(what); }` around a conversion. */
  function CatchInvalid<T>(r: Result<T, CppError>, what: string): (s: Result<T, CppError>)
    ensures r.Ok? ==> s == r
    ensures r.Err? ==> s == Err(if r.error == InvalidArgument then Malformed(what) else r.error)
  {
    if r.Err? && r.error == InvalidArgument then Err(Malformed(what)) else r
  }
}
