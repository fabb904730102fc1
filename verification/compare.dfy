/** The response comparator of `science/compare.go`: header cleanup before a response is
    dumped, and the status-code, header and body tests. */
module Compare {
  import opened Wrappers
  import opened Json
  import opened JsonEquality

  newtype byte = x: int | 0 <= x < 256

  /** `http.Header`: a header name mapped to its list of values, in arrival order. */
  type Header = map<string, seq<string>>

  /** The parts of an `http.Response` that header cleanup reads or writes. */
  datatype Response = Response(
    statusCode: int,
    header: Header,
    contentLength: int,
    transferEncoding: seq<string>,
    body: seq<byte>)

  /** The decoder `encoding/json.Unmarshal` into `map[string]interface{}`: `None` when the
      bytes are not a JSON object. It is a parameter of the model. */
  type Parser = seq<byte> -> Option<map<string, Json>>

  /** One step of the cleanup loop: drop the header `name` and, for the two framing headers,
      reset the field derived from it. */
  function CleanupOne(res: Response, name: string): Response {
    var dropped := res.(header := res.header - {name});
    if name == "Content-Length" then dropped.(contentLength := 0)
    else if name == "Transfer-Encoding" then dropped.(transferEncoding := [])
    else dropped
  }

  /** `cleanupHeaders`: the names of `cleanup` are gone from the header and every other entry
      keeps its values; the content length is zeroed exactly when "Content-Length" is listed
      and the transfer encoding emptied exactly when "Transfer-Encoding" is listed; status and
      body are untouched. */
  function CleanupHeaders(res: Response, cleanup: seq<string>): (r: Response)
    ensures r.header.Keys == res.header.Keys - set n | n in cleanup
    ensures forall n :: n in r.header ==> r.header[n] == res.header[n]
    ensures r.contentLength == if "Content-Length" in cleanup then 0 else res.contentLength
    ensures r.transferEncoding == if "Transfer-Encoding" in cleanup then [] else res.transferEncoding
    ensures r.statusCode == res.statusCode && r.body == res.body
    decreases |cleanup|
  {
    if cleanup == [] then res
    else CleanupHeaders(CleanupOne(res, cleanup[0]), cleanup[1..])
  }

  /** The cleaned header is the received header without the listed names. */
  lemma CleanupRemovesListed(res: Response, cleanup: seq<string>)
    ensures CleanupHeaders(res, cleanup).header == res.header - set n | n in cleanup
  {
  }

  /** Cleaning a response twice with the same list is cleaning it once. */
  lemma CleanupIdempotent(res: Response, cleanup: seq<string>)
    ensures CleanupHeaders(CleanupHeaders(res, cleanup), cleanup) == CleanupHeaders(res, cleanup)
  {
  }

  /** `codesAreEqual`: integer equality, so the forwarding-failure code -1 meets only -1. */
  function CodesAreEqual(control: int, experiment: int): bool {
    control == experiment
  }

  /** `headersAreEqual` (`reflect.DeepEqual` on two headers): the same header names, each with
      the same list of values in the same order. */
  function HeadersAreEqual(control: Header, experiment: Header): (r: bool)
    ensures r <==> (control.Keys == experiment.Keys &&
                    forall n :: n in control ==> control[n] == experiment[n])
  {
    assert control.Keys == experiment.Keys && (forall n :: n in control ==> control[n] == experiment[n])
      ==> control == experiment;
    control == experiment
  }

  /** The order of a header's values is significant. */
  lemma HeaderValueOrderMatters()
    ensures !HeadersAreEqual(map["X-A" := ["1", "2"]], map["X-A" := ["2", "1"]])
  {
    var c, e := map["X-A" := ["1", "2"]], map["X-A" := ["2", "1"]];
    assert c["X-A"][0] != e["X-A"][0];
  }

  /** `isSimplyEqual`: the two byte strings are identical. */
  function IsSimplyEqual(control: seq<byte>, experiment: seq<byte>): bool {
    control == experiment
  }

  /** `isJSONEqual`: false unless both bodies parse as JSON objects; then `msiAreEqual` in weak
      mode and `reflect.DeepEqual` in strict mode, which is the mode-parameterised object
      equality in either case. */
  function IsJsonEqual(mode: Mode, parse: Parser, control: seq<byte>, experiment: seq<byte>): (r: bool)
    ensures parse(control).None? || parse(experiment).None? ==> !r
    ensures parse(control).Some? && parse(experiment).Some? ==>
              (r <==> MapEq(mode, parse(control).value, parse(experiment).value))
    ensures mode == Strict ==> (r <==> parse(control).Some? && parse(control) == parse(experiment))
  {
    match (parse(control), parse(experiment))
    case (Some(c), Some(e)) =>
      (match mode
       case Weak => MapEq(Weak, c, e)
       case Strict => StrictMapIsEquality(c, e); c == e)
    case _ => false
  }

  /** `bodiesAreEqual`: identical bytes are equal whatever the mode; otherwise both bodies
      must parse as JSON objects that are equal in the given mode. */
  function BodiesAreEqual(mode: Mode, parse: Parser, control: seq<byte>, experiment: seq<byte>): (r: bool)
    ensures control == experiment ==> r
    ensures control != experiment && (parse(control).None? || parse(experiment).None?) ==> !r
    ensures control != experiment && parse(control).Some? && parse(experiment).Some? ==>
              (r <==> MapEq(mode, parse(control).value, parse(experiment).value))
  {
    IsSimplyEqual(control, experiment) || IsJsonEqual(mode, parse, control, experiment)
  }

  /** Two bodies that differ only in the order of an array parse to objects that weak mode
      accepts and strict mode rejects: `{"a":[1,2]}` against `{"a":[2,1]}`. */
  lemma ArrayOrderBodies(parse: Parser, control: seq<byte>, experiment: seq<byte>)
    requires control != experiment
    requires parse(control) == Some(map["a" := Arr([Num(1.0), Num(2.0)])])
    requires parse(experiment) == Some(map["a" := Arr([Num(2.0), Num(1.0)])])
    ensures BodiesAreEqual(Weak, parse, control, experiment)
    ensures !BodiesAreEqual(Strict, parse, control, experiment)
  {
    ArrayOrderExamples();
  }
}
