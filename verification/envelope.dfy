/** The uniform error envelope of the service and its reason-phrase table. */
module Envelope {
  import opened Wrappers

  /** The error body every failing handler sends: `success` is always false. */
  datatype Envelope = Envelope(success: bool, code: int, details: Option<string>, message: string)

  /** The 4xx codes the table knows. */
  const ClientKeys: set<int> :=
    {400, 401, 402, 403, 404, 405, 406, 407, 408, 409, 410, 411, 412, 413, 414, 415, 416, 417, 418,
     422, 423, 424, 425, 426, 428, 429, 431, 451}

  /** The 5xx codes the table knows. */
  const ServerKeys: set<int> := {500, 501, 502, 503, 504, 505, 506, 507, 508, 510, 511}

  /** The status codes the table knows, as a set, for stating coverage. */
  const TableKeys: set<int> := ClientKeys + ServerKeys

  /** Looks a status code up in the reason-phrase table; codes outside the
      table (200, 419, ...) have no phrase, as a JavaScript object lookup of a
      missing key yields `undefined`. */
  function ReasonPhrase(code: int): (r: Option<string>)
    ensures r.Some? <==> code in TableKeys
    ensures r.Some? ==> 400 <= code <= 451 || 500 <= code <= 511
    ensures r.Some? ==> r.value != ""
  {
    if code < 500 then ClientPhrase(code) else ServerPhrase(code)
  }

  /** The 4xx half of the table. */
  function ClientPhrase(code: int): (r: Option<string>)
    ensures r.Some? <==> code in ClientKeys
    ensures r.Some? ==> 400 <= code <= 451 && r.value != ""
  {
    if code <= 418 then ClassicClientPhrase(code) else LaterClientPhrase(code)
  }

  /** The 4xx codes 400 through 418. */
  function ClassicClientPhrase(code: int): (r: Option<string>)
    ensures r.Some? <==> 400 <= code <= 418
    ensures r.Some? ==> r.value != ""
  {
    match code
    case 400 => Some("Bad Request")
    case 401 => Some("Unauthorized")
    case 402 => Some("Payment Required")
    case 403 => Some("Forbidden")
    case 404 => Some("Not Found")
    case 405 => Some("Method Not Allowed")
    case 406 => Some("Not Acceptable")
    case 407 => Some("Proxy Authentication Required")
    case 408 => Some("Request Timeout")
    case 409 => Some("Conflict")
    case 410 => Some("Gone")
    case 411 => Some("Length Required")
    case 412 => Some("Precondition Failed")
    case 413 => Some("Payload Too Large")
    case 414 => Some("URI Too Long")
    case 415 => Some("Unsupported Media Type")
    case 416 => Some("Range Not Satisfiable")
    case 417 => Some("Expectation Failed")
    case 418 => Some("I'm a Teapot")
    case _ => None
  }

  /** The 4xx codes 422 through 451, added by later standards. */
  function LaterClientPhrase(code: int): (r: Option<string>)
    ensures r.Some? <==> code in {422, 423, 424, 425, 426, 428, 429, 431, 451}
    ensures r.Some? ==> r.value != ""
  {
    match code
    case 422 => Some("Unprocessable Entity")
    case 423 => Some("Locked")
    case 424 => Some("Failed Dependency")
    case 425 => Some("Too Early")
    case 426 => Some("Upgrade Required")
    case 428 => Some("Precondition Required")
    case 429 => Some("Too Many Requests")
    case 431 => Some("Request Header Fields Too Large")
    case 451 => Some("Unavailable For Legal Reasons")
    case _ => None
  }

  /** The 5xx half of the table. */
  function ServerPhrase(code: int): (r: Option<string>)
    ensures r.Some? <==> code in ServerKeys
    ensures r.Some? ==> 500 <= code <= 511 && r.value != ""
  {
    match code
    case 500 => Some("Internal Server Error")
    case 501 => Some("Not Implemented")
    case 502 => Some("Bad Gateway")
    case 503 => Some("Service Unavailable")
    case 504 => Some("Gateway Timeout")
    case 505 => Some("HTTP Version Not Supported")
    case 506 => Some("Variant Also Negotiates")
    case 507 => Some("Insufficient Storage")
    case 508 => Some("Loop Detected")
    case 510 => Some("Not Extended")
    case 511 => Some("Network Authentication Required")
    case _ => None
  }

  /** Builds the failure envelope for `code`, echoing `code` and `message`. */
  function APIUnsuccessful(code: int, message: string): (e: Envelope)
    ensures !e.success
    ensures e.code == code && e.message == message
    ensures e.details.Some? <==> code in TableKeys
    ensures e.details == ReasonPhrase(code)
  {
    Envelope(false, code, ReasonPhrase(code), message)
  }

  /** The four codes the handlers emit carry their standard phrases, and the
      success code 200 and the unassigned 419 carry none. */
  lemma RouteCodesPhrases()
    ensures APIUnsuccessful(400, "").details == Some("Bad Request")
    ensures APIUnsuccessful(401, "").details == Some("Unauthorized")
    ensures APIUnsuccessful(404, "").details == Some("Not Found")
    ensures APIUnsuccessful(500, "").details == Some("Internal Server Error")
    ensures APIUnsuccessful(200, "").details == None
    ensures APIUnsuccessful(419, "").details == None
  {
  }
}
