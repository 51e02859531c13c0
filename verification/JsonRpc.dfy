/** JSON-RPC 2.0 messages and `validateMessage` (packages/lsp-shared/client.js). */
module JsonRpc {
  import opened Wrappers

  /** A JSON value.  Numbers that are not integers are kept by their spelling. */
  datatype Json =
    | Null
    | Bool(b: bool)
    | Int(n: int)
    | Fraction(spelling: string)
    | Str(s: string)
    | Arr(items: seq<Json>)
    | Obj(fields: map<string, Json>)

  /** The frame decoder only hands out objects. */
  type Message = map<string, Json>

  datatype Violation = WrongVersion | MethodNotString | BadId | MalformedMessage

  /** A usable `error` member: an object with an integer code and a message. */
  predicate IsErrorObject(error: Json) {
    && error.Obj?
    && "code" in error.fields && error.fields["code"].Int?
    && "message" in error.fields && error.fields["message"].Str?
  }

  /** What `validateMessage` throws, if anything. */
  function Validate(message: Message): Option<Violation> {
    var hasMethod, hasId := "method" in message, "id" in message;
    var hasResult, hasError := "result" in message, "error" in message;
    if !("jsonrpc" in message && message["jsonrpc"] == Str("2.0")) then Some(WrongVersion)
    else if hasMethod && !message["method"].Str? then Some(MethodNotString)
    else if hasId && !message["id"].Null? && !message["id"].Str? && !message["id"].Int? then Some(BadId)
    else if || (hasMethod && (hasResult || hasError))
            || (!hasMethod && (!hasId || hasResult == hasError))
            || (hasError && !IsErrorObject(message["error"])) then Some(MalformedMessage)
    else None
  }

  // ------------------------------------- sections 4, 4.1, 4.2 and 5 of JSON-RPC 2.0

  predicate HasVersion(message: Message) {
    "jsonrpc" in message && message["jsonrpc"] == Str("2.0")
  }

  predicate HasId(message: Message) {
    "id" in message && (message["id"].Null? || message["id"].Str? || message["id"].Int?)
  }

  predicate HasMethod(message: Message) {
    "method" in message && message["method"].Str?
  }

  predicate IsRequest(message: Message) {
    && HasVersion(message) && HasMethod(message) && HasId(message)
    && "result" !in message && "error" !in message
  }

  predicate IsNotification(message: Message) {
    && HasVersion(message) && HasMethod(message) && "id" !in message
    && "result" !in message && "error" !in message
  }

  predicate IsSuccess(message: Message) {
    && HasVersion(message) && HasId(message) && "method" !in message
    && "result" in message && "error" !in message
  }

  predicate IsFailure(message: Message) {
    && HasVersion(message) && HasId(message) && "method" !in message
    && "result" !in message && "error" in message && message["error"].Obj?
    && var error := message["error"].fields;
       "code" in error && error["code"].Int? && "message" in error && error["message"].Str?
  }

  predicate IsResponse(message: Message) {
    IsSuccess(message) || IsFailure(message)
  }

  /** `validateMessage` passes exactly the four kinds of message of the
      standard, and no message is of two kinds; of several faults it reports the version
      before the method before the id. */
  lemma ValidateMeansFourKinds(message: Message)
    ensures Validate(message).None? <==>
            IsRequest(message) || IsNotification(message) || IsSuccess(message) || IsFailure(message)
    ensures !(IsRequest(message) && IsNotification(message)) && !(IsSuccess(message) && IsFailure(message))
    ensures !((IsRequest(message) || IsNotification(message)) && IsResponse(message))
    ensures Validate(message) == Some(WrongVersion) <==> !HasVersion(message)
    ensures Validate(message) == Some(MethodNotString) <==>
            HasVersion(message) && "method" in message && !HasMethod(message)
    ensures Validate(message) == Some(BadId) <==>
            HasVersion(message) && ("method" in message ==> HasMethod(message)) && "id" in message && !HasId(message)
  {
  }
}
