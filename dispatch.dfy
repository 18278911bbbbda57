/**
 * Session::handleMessage over an abstract parse result, together with what processFile
 * and processText are handed. The JSON text itself is parsed by a library that is not
 * part of this model; its result is an object of fields, or nothing when the text is not
 * a JSON object.
 */
module Dispatch {

  import opened Wrappers
  import opened Bytes
  import Base64
  import Filename

  /** A field of the parsed object: a JSON string, or any other JSON value. */
  datatype Field = Str(s: string) | NonString

  type JsonObject = map<string, Field>

  /**
   * Why handling a message throws: the text is not a JSON object, a field read with
   * `msg[key]` is missing, or a field is not a string where one is converted to
   * std::string.
   */
  datatype MessageError = ParseError | MissingField(key: string) | NotAString(key: string)

  /** What handleMessage does with a well-formed message. */
  datatype Effect =
    | SaveFile(sender: string, receiver: string, filename: string, path: string, data: seq<byte>)
    | ShowText(sender: string, receiver: string, message: string)
    | UnknownType(kind: string)

  /** `const std::string v = msg[key]`: the key must be present and hold a string. */
  function Required(msg: JsonObject, key: string): (r: Result<string, MessageError>)
    ensures r.Ok? <==> key in msg && msg[key].Str?
    ensures r.Ok? ==> r.value == msg[key].s
    ensures r.Err? ==> r.error == if key in msg then NotAString(key) else MissingField(key)
  {
    if key !in msg then Err(MissingField(key))
    else match msg[key]
      case Str(s) => Ok(s)
      case NonString => Err(NotAString(key))
  }

  /** `msg.value(key, fallback)`: the fallback when the key is absent, else its string. */
  function Optional(msg: JsonObject, key: string, fallback: string): (r: Result<string, MessageError>)
    ensures r.Ok? <==> key !in msg || msg[key].Str?
    ensures r.Ok? ==> r.value == if key in msg then msg[key].s else fallback
    ensures r.Err? ==> r.error == NotAString(key)
  {
    if key !in msg then Ok(fallback)
    else match msg[key]
      case Str(s) => Ok(s)
      case NonString => Err(NotAString(key))
  }

  /**
   * Session::handleMessage: reads type, data and receiver, then sender and filename with
   * their defaults, decodes data, and dispatches on type. The first failing read, in that
   * order, is the exception readBody catches.
   */
  function HandleMessage(desktop: string, parsed: Option<JsonObject>): (r: Result<Effect, MessageError>)
  {
    if parsed.None? then Err(ParseError)
    else
      var msg := parsed.value;
      var kind :- Required(msg, "type");
      var encoded :- Required(msg, "data");
      var receiver :- Required(msg, "receiver");
      var sender :- Optional(msg, "sender", "unknown");
      var filename :- Optional(msg, "filename", "unnamed");
      var decoded := Base64.Decode(encoded);
      if kind == "FILE" then
        var name := Filename.Sanitize(filename);
        Ok(SaveFile(sender, receiver, name, Filename.ReceivedPath(desktop, filename), decoded))
      else if kind == "TEXT" then
        Ok(ShowText(sender, receiver, Chars(decoded)))
      else
        Ok(UnknownType(kind))
  }

  /** The fields a message must have for handleMessage to return normally. */
  predicate WellFormed(msg: JsonObject) {
    && (forall key | key in ["type", "data", "receiver"] :: key in msg && msg[key].Str?)
    && (forall key | key in ["sender", "filename"] :: key in msg ==> msg[key].Str?)
  }

  /** The sender or file name a message carries, or its default. */
  function FieldOr(msg: JsonObject, key: string, fallback: string): string {
    if key in msg && msg[key].Str? then msg[key].s else fallback
  }

  /**
   * handleMessage returns normally exactly on a parsed, well-formed message, and then
   * its sender and file name are those of the message or "unknown" and "unnamed".
   */
  lemma HandleSucceedsIffWellFormed(desktop: string, parsed: Option<JsonObject>)
    ensures HandleMessage(desktop, parsed).Ok? <==> parsed.Some? && WellFormed(parsed.value)
    ensures HandleMessage(desktop, parsed).Ok? && !HandleMessage(desktop, parsed).value.UnknownType? ==>
      HandleMessage(desktop, parsed).value.sender == FieldOr(parsed.value, "sender", "unknown")
  {
  }

  /**
   * An error names the first of the reads that fails, in the order type, data, receiver,
   * sender, filename.
   */
  lemma HandleErrorOrder(desktop: string, msg: JsonObject)
    ensures var r := HandleMessage(desktop, Some(msg));
      r.Err? ==> r.error.NotAString? || r.error.MissingField?
    ensures var r := HandleMessage(desktop, Some(msg));
      ("type" !in msg ==> r == Err(MissingField("type")))
      && ("type" in msg && msg["type"].Str? && "data" !in msg ==> r == Err(MissingField("data")))
    ensures var r := HandleMessage(desktop, Some(msg));
      r.Err? && r.error.key == "filename" ==> WellFormed(msg - {"filename"})
  {
  }

  /**
   * A FILE message is saved under the desktop path with the sanitised file name, or
   * "unnamed", holding the decoded data.
   */
  lemma HandleFile(desktop: string, msg: JsonObject)
    requires WellFormed(msg) && msg["type"] == Str("FILE")
    ensures var r := HandleMessage(desktop, Some(msg));
      var name := FieldOr(msg, "filename", "unnamed");
      r == Ok(SaveFile(FieldOr(msg, "sender", "unknown"), msg["receiver"].s,
                       Filename.Sanitize(name), Filename.ReceivedPath(desktop, name),
                       Base64.Decode(msg["data"].s)))
  {
  }

  /**
   * A TEXT message is shown as the decoded bytes read as characters, one per byte, from
   * which the bytes can be recovered.
   */
  lemma HandleText(desktop: string, msg: JsonObject)
    requires WellFormed(msg) && msg["type"] == Str("TEXT")
    ensures var r := HandleMessage(desktop, Some(msg));
      r.Ok? && r.value.ShowText? && r.value.receiver == msg["receiver"].s
      && r.value.sender == FieldOr(msg, "sender", "unknown")
      && |r.value.message| == |Base64.Decode(msg["data"].s)|
      && forall k :: 0 <= k < |r.value.message| ==> r.value.message[k] as int == Base64.Decode(msg["data"].s)[k] as int
  {
  }

  /** Any other type is neither saved nor shown. */
  lemma HandleOther(desktop: string, msg: JsonObject)
    requires WellFormed(msg) && msg["type"].s != "FILE" && msg["type"].s != "TEXT"
    ensures HandleMessage(desktop, Some(msg)) == Ok(UnknownType(msg["type"].s))
  {
  }
}
