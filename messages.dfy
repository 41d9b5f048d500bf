/**
 * The inbound message as json.loads leaves it, and the checks
 * process_message makes on it before a reading is accepted.
 */
module Messages {
  import opened Wrappers

  /** A decoded JSON value. */
  datatype Json =
    | JNull
    | JBool(b: bool)
    | JNumber(n: real)
    | JString(s: string)
    | JArray(items: seq<Json>)
    | JObject(fields: map<string, Json>)

  /** The outcome of json.loads on the raw message text. */
  datatype Message = Malformed | Decoded(json: Json)

  /** Why a message was dropped; each is logged at error level. */
  datatype Failure =
    | DecodeFailed       // json.JSONDecodeError
    | InvalidFormat      // heart_rate or timestamp is None
    | ProcessingFailed   // any other exception inside the try block

  /** An accepted reading. */
  datatype Reading = Reading(value: real, timestamp: Json)

  /** dict.get: a missing key reads as None, the same as a JSON null. */
  function Get(fields: map<string, Json>, key: string): (v: Json)
    ensures key in fields ==> v == fields[key]
    ensures key !in fields ==> v == JNull
  {
    if key in fields then fields[key] else JNull
  }

  /**
   * The number a heart_rate compares and is stored as. A Python bool is an
   * int (True is 1, False is 0); a string, list or dict makes the comparison
   * with a float threshold raise TypeError.
   */
  function Numeric(v: Json): (r: Option<real>)
    ensures r.Some? <==> v.JNumber? || v.JBool?
    ensures v.JNumber? ==> r == Some(v.n)
  {
    match v
    case JNumber(n) => Some(n)
    case JBool(b) => Some(if b then 1.0 else 0.0)
    case _ => None
  }

  /**
   * Decode and validate, in the order process_message does: a decode error
   * first; then data.get, which raises on anything but an object; then the
   * presence check; then the alerter's comparison, which raises on a
   * non-numeric heart_rate.
   */
  function Accept(msg: Message): (r: Result<Reading, Failure>)
    ensures msg.Malformed? <==> r == Failure(DecodeFailed)
    ensures r == Failure(InvalidFormat) <==>
      msg.Decoded? && msg.json.JObject? &&
      (Get(msg.json.fields, "heart_rate").JNull? || Get(msg.json.fields, "timestamp").JNull?)
    ensures r.Success? <==>
      msg.Decoded? && msg.json.JObject? &&
      Numeric(Get(msg.json.fields, "heart_rate")).Some? &&
      !Get(msg.json.fields, "timestamp").JNull?
    ensures r.Success? ==>
      Some(r.value.value) == Numeric(Get(msg.json.fields, "heart_rate")) &&
      r.value.timestamp == Get(msg.json.fields, "timestamp")
  {
    match msg
    case Malformed => Failure(DecodeFailed)
    case Decoded(json) =>
      if !json.JObject? then Failure(ProcessingFailed)
      else
        var heartRate := Get(json.fields, "heart_rate");
        var timestamp := Get(json.fields, "timestamp");
        if heartRate.JNull? || timestamp.JNull? then Failure(InvalidFormat)
        else
          match Numeric(heartRate)
          case None => Failure(ProcessingFailed)
          case Some(value) => Success(Reading(value, timestamp))
  }

  /** Fields other than heart_rate and timestamp are ignored. */
  lemma ExtraFieldsIgnored(f1: map<string, Json>, f2: map<string, Json>)
    requires Get(f1, "heart_rate") == Get(f2, "heart_rate")
    requires Get(f1, "timestamp") == Get(f2, "timestamp")
    ensures Accept(Decoded(JObject(f1))) == Accept(Decoded(JObject(f2)))
  {
  }
}
