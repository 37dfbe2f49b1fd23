/** The reason phrases of Node's `http.STATUS_CODES` table, which the response looks its
    `statusMessage` up in. */
module StatusCodes {
  import opened Js

  /** `STATUS_CODES[code]`: the standard reason phrase, or `undefined` for a code the table
      does not list. */
  function StatusText(code: int): (phrase: Option<string>)
    ensures phrase.Some? ==> 100 <= code <= 599 && phrase.value != ""
  {
    if code < 100 || code > 599 then None
    else if code < 200 then Informational(code)
    else if code < 300 then Successful(code)
    else if code < 400 then Redirection(code)
    else if code < 500 then ClientError(code)
    else ServerError(code)
  }

  /** The 1xx, informational part of the table. */
  function Informational(code: int): (phrase: Option<string>)
    ensures phrase.Some? ==> phrase.value != ""
  {
    match code
    case 100 => Some("Continue")
    case 101 => Some("Switching Protocols")
    case 102 => Some("Processing")
    case 103 => Some("Early Hints")
    case _ => None
  }

  /** The 2xx, success part of the table. */
  function Successful(code: int): (phrase: Option<string>)
    ensures phrase.Some? ==> phrase.value != ""
  {
    match code
    case 200 => Some("OK")
    case 201 => Some("Created")
    case 202 => Some("Accepted")
    case 203 => Some("Non-Authoritative Information")
    case 204 => Some("No Content")
    case 205 => Some("Reset Content")
    case 206 => Some("Partial Content")
    case 207 => Some("Multi-Status")
    case 208 => Some("Already Reported")
    case 226 => Some("IM Used")
    case _ => None
  }

  /** The 3xx, redirection part of the table. */
  function Redirection(code: int): (phrase: Option<string>)
    ensures phrase.Some? ==> phrase.value != ""
  {
    match code
    case 300 => Some("Multiple Choices")
    case 301 => Some("Moved Permanently")
    case 302 => Some("Found")
    case 303 => Some("See Other")
    case 304 => Some("Not Modified")
    case 305 => Some("Use Proxy")
    case 307 => Some("Temporary Redirect")
    case 308 => Some("Permanent Redirect")
    case _ => None
  }

  /** The 4xx, client error part of the table. */
  function ClientError(code: int): (phrase: Option<string>)
    ensures phrase.Some? ==> phrase.value != ""
  {
    match code
    case 400 => Some("Bad Request")
    case 401 => Some("Unauthorized")
    case 402 => Some("Payment Required")
    case 403 => Some("Forbidden")
    case 404 => Some("Not Found")
    case 405 => Some("Method Not Allowed")
    case 406 => Some("Not Acceptable")
    case 407 => Some("Proxy Authentication Required")
    case 408 => Some("Request Timeout")
    case 409 => Some("Conflict")
    case 410 => Some("Gone")
    case 411 => Some("Length Required")
    case 412 => Some("Precondition Failed")
    case 413 => Some("Payload Too Large")
    case 414 => Some("URI Too Long")
    case 415 => Some("Unsupported Media Type")
    case 416 => Some("Range Not Satisfiable")
    case 417 => Some("Expectation Failed")
    case 418 => Some("I'm a Teapot")
    case 421 => Some("Misdirected Request")
    case 422 => Some("Unprocessable Entity")
    case 423 => Some("Locked")
    case 424 => Some("Failed Dependency")
    case 425 => Some("Too Early")
    case 426 => Some("Upgrade Required")
    case 428 => Some("Precondition Required")
    case 429 => Some("Too Many Requests")
    case 431 => Some("Request Header Fields Too Large")
    case 451 => Some("Unavailable For Legal Reasons")
    case _ => None
  }

  /** The 5xx, server error part of the table. */
  function ServerError(code: int): (phrase: Option<string>)
    ensures phrase.Some? ==> phrase.value != ""
  {
    match code
    case 500 => Some("Internal Server Error")
    case 501 => Some("Not Implemented")
    case 502 => Some("Bad Gateway")
    case 503 => Some("Service Unavailable")
    case 504 => Some("Gateway Timeout")
    case 505 => Some("HTTP Version Not Supported")
    case 506 => Some("Variant Also Negotiates")
    case 507 => Some("Insufficient Storage")
    case 508 => Some("Loop Detected")
    case 509 => Some("Bandwidth Limit Exceeded")
    case 510 => Some("Not Extended")
    case 511 => Some("Network Authentication Required")
    case _ => None
  }
}
