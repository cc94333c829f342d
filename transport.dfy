/**
 * The HTTP requests the helpers send and the outcomes they can observe.
 * The network itself is not modelled: every operation receives the
 * transport as a function from the request it sends to the response.
 */
module Transport {
  import opened Vcard

  newtype byte = x: int | 0 <= x < 256
  type Bytes = seq<byte>

  datatype Method = GET | PUT | DELETE | REPORT

  /** Request bodies: none, text, a vCard as the vCard library serialises it, or the bytes of a local file. */
  datatype Body = NoBody | Text(text: string) | VCardText(card: Card) | FileBytes(bytes: Bytes)

  datatype Request = Request(verb: Method, url: string, headers: seq<(string, string)>, body: Body)

  /**
   * What the HTTP client reports: a response with a status and a body, or
   * a failure before any response (connection error, timeout, bad URL),
   * which the HTTP client raises as a request exception.
   */
  datatype Response = Answered(status: int, content: Bytes) | Unreachable

  /**
   * `raise_for_status()` raises for client errors (400-499) and server
   * errors (500-599) only; any other status passes.
   */
  predicate RaisesForStatus(status: int)
  {
    400 <= status < 600
  }

  /** The request went through: a response arrived and `raise_for_status()` did not raise. */
  predicate Succeeds(r: Response)
  {
    r.Answered? && !RaisesForStatus(r.status)
  }
}
