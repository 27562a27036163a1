/** The tool's error values: a `WolError` carries an integer kind, four kinds are
    named (numbered 0 to 3 in declaration order), and `Error()` maps each kind to
    its message, falling back to "Unknown error" for any other number.
 */
module WolErrors {

  const MacAddrFormatWrong: int := 0
  const MacAddrLengthWrong: int := 1
  const HostNameFormatWrong: int := 2
  const PortFormatWrong: int := 3

  datatype WolError = WolError(kind: int)

  const MacAddrFormatWrongErr := WolError(MacAddrFormatWrong)
  const MacAddrLengthWrongErr := WolError(MacAddrLengthWrong)
  const HostNameFormatWrongErr := WolError(HostNameFormatWrong)
  const PortFormatWrongErr := WolError(PortFormatWrong)

  /** A Go `error` result: `nil` is `Pass`, a `WolError` is `Fail`. */
  datatype Outcome = Pass | Fail(error: WolError)

  /** One of the four kinds the tool names. */
  predicate IsKnownKind(kind: int) {
    kind == MacAddrFormatWrong || kind == MacAddrLengthWrong
    || kind == HostNameFormatWrong || kind == PortFormatWrong
  }

  const UnknownMessage := "Unknown error"

  /** The message `Error()` renders for an error value. */
  function Message(e: WolError): (msg: string)
    ensures msg == UnknownMessage <==> !IsKnownKind(e.kind)
    ensures |msg| > 0
  {
    if e.kind == MacAddrFormatWrong then "Mac address contains chars other than hex"
    else if e.kind == MacAddrLengthWrong then "Mac address length wrong"
    else if e.kind == HostNameFormatWrong then "Host name is in the wrong format"
    else if e.kind == PortFormatWrong then "Port in the wrong format"
    else UnknownMessage
  }

  /** Distinct named kinds never share a message, so the message identifies the kind. */
  lemma MessagesDistinguishKinds(e1: WolError, e2: WolError)
    requires IsKnownKind(e1.kind) && IsKnownKind(e2.kind)
    ensures Message(e1) == Message(e2) <==> e1 == e2
  {
  }
}
