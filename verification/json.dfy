/** JSON records as the request handlers see them, the exceptions they raise,
    and the replies of the external model capabilities. */
module Json {
  import opened Quoting

  datatype Option<+T> = None | Some(value: T)

  /** The JSON values the localization pipeline reads or writes. A list of
      strings is what clients send for an array field; a list of string
      records is what the array expander produces. */
  datatype Value =
    | Str(s: string)
    | StrList(items: seq<string>)
    | RecordList(records: seq<map<string, string>>)

  /** A JSON object: field name to value. */
  type Record = map<string, Value>

  /** The exceptions the core can raise. */
  datatype Failure =
    | KeyMissing(key: string)     // a KeyError for `key`
    | ValueFault(detail: string)  // a ValueError carrying `detail`
    | Crash                       // any other exception: no handler catches it

  datatype Result<+T> = Ok(value: T) | Err(failure: Failure) {
    predicate IsFailure() { Err? }
    function PropagateFailure<U>(): Result<U> requires Err? { Err(failure) }
    function Extract(): T requires Ok? { value }
  }

  /** What a model capability (translation, captioning) gives back: a text, or
      the exception it raises. */
  datatype Reply = Text(text: string) | RaisesValueError(detail: string) | RaisesOther

  /** translate(text, source model code, target model code) */
  type Translator = (string, string, string) -> Reply

  /** caption(image reference): fetches the image and describes it */
  type Captioner = Value -> Reply

  function FromReply(r: Reply): (res: Result<string>)
    ensures res.Ok? <==> r.Text?
    ensures r.Text? ==> res.value == r.text
    ensures r.RaisesValueError? ==> res == Err(ValueFault(r.detail))
    ensures r.RaisesOther? ==> res == Err(Crash)
  {
    match r
    case Text(t) => Ok(t)
    case RaisesValueError(detail) => Err(ValueFault(detail))
    case RaisesOther => Err(Crash)
  }

  /** The one-character strings obtained by iterating over a Python string. */
  function Chars(s: string): (cs: seq<string>)
    ensures |cs| == |s|
    ensures forall i :: 0 <= i < |s| ==> cs[i] == [s[i]]
  {
    seq(|s|, i requires 0 <= i < |s| => [s[i]])
  }

  /** The body of a caught KeyError: `str` of a KeyError is the `repr` of
      its key. */
  function MissingKeyMessage(key: string): string
  {
    "Missing key: " + Repr(key)
  }

  /** For the keys the handlers name, and any other key without quotes,
      backslashes or control characters, the key appears between single
      quotes. */
  lemma MissingKeyMessagePlain(key: string)
    requires forall i :: 0 <= i < |key| ==> Plain(key[i], '\'')
    ensures MissingKeyMessage(key) == "Missing key: '" + key + "'"
  {
    ReprPlain(key);
  }

  /** The message of a request without a selector. */
  lemma MissingLanguageMessage()
    ensures MissingKeyMessage("language") == "Missing key: 'language'"
  {
    MissingKeyMessagePlain("language");
  }

  function InvalidDataMessage(detail: string): string
  {
    "Invalid JSON data: " + detail
  }

  /** The one-key record a handler returns in place of its result. */
  function ErrorRecord(message: string): Record
  {
    map["error" := Str(message)]
  }

  predicate StartsWith(s: string, prefix: string)
  {
    |prefix| <= |s| && s[..|prefix|] == prefix
  }

  /** The `except KeyError` / `except ValueError` clauses every handler ends
      with: a caught exception becomes a one-key error record, anything else
      propagates. */
  function Caught(r: Result<Record>): (c: Result<Record>)
    ensures c.Err? <==> r == Err(Crash)
    ensures c.Ok? && r.Err? ==> c.value.Keys == {"error"}
    ensures r.Err? && r.failure.KeyMissing? ==> c == Ok(ErrorRecord(MissingKeyMessage(r.failure.key)))
    ensures r.Err? && r.failure.ValueFault? ==> c == Ok(ErrorRecord(InvalidDataMessage(r.failure.detail)))
  {
    match r
    case Ok(_) => r
    case Err(KeyMissing(k)) => Ok(ErrorRecord(MissingKeyMessage(k)))
    case Err(ValueFault(detail)) => Ok(ErrorRecord(InvalidDataMessage(detail)))
    case Err(Crash) => r
  }

  lemma MissingKeyMessageStartsWith(key: string)
    ensures StartsWith(MissingKeyMessage(key), "Missing key")
  {
    assert MissingKeyMessage(key)[..11] == "Missing key";
  }

  /** A Python dict object: it has an identity and is updated in place. */
  class JsonDict {
    var entries: Record

    /** `dict(json_data)` or a dict literal: a new object holding `entries`. */
    constructor (entries: Record)
      ensures this.entries == entries
    {
      this.entries := entries;
    }
  }

  /** What a handler hands back, as a record: the dict it returns, or the
      exception that escapes it. */
  ghost function Entries(r: Result<JsonDict>): Result<Record>
    reads if r.Ok? then {r.value} else {}
  {
    match r
    case Ok(dict) => Ok(dict.entries)
    case Err(f) => Err(f)
  }

  /** The `except` clauses of a handler, once `f` has been raised: a new
      error dict for a KeyError or ValueError, and anything else escapes. */
  method CatchFailure(f: Failure) returns (out: Result<JsonDict>)
    ensures Entries(out) == Caught(Err(f))
    ensures out.Ok? ==> fresh(out.value)
  {
    match f
    case KeyMissing(key) =>
      var dict := new JsonDict(ErrorRecord(MissingKeyMessage(key)));
      return Ok(dict);
    case ValueFault(detail) =>
      var dict := new JsonDict(ErrorRecord(InvalidDataMessage(detail)));
      return Ok(dict);
    case Crash =>
      return Err(Crash);
  }
}
