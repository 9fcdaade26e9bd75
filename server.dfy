/** The lookup side of server.js: shaping one upstream outcome into a lookup
    result (`fetchFipe`), the index-aligned batch mapper (`mapWithLimit`) and
    the `POST /api/fipe` handler that merges, checks and resolves the codes.
    The network is not modelled: the upstream service is a function from a
    code to the outcome of fetching it. */
module Server {
  import opened Wrappers
  import opened Text
  import opened Codes

  // ---------------------------------------------------------------------------
  // Data
  // ---------------------------------------------------------------------------

  /** One pricing record of the upstream payload, reduced to the fields the
      export reads. A field is None when it is absent or falsy, and otherwise
      holds the field's `String(...)` rendering. */
  datatype Vehicle = Vehicle(
    marca: Option<string>,
    modelo: Option<string>,
    anoModelo: Option<string>,
    combustivel: Option<string>,
    valor: Option<string>,
    mesReferencia: Option<string>)

  /** The parsed upstream body: an array of entries, or a single value. An
      entry or value is None when it is falsy (`null`, `false`, `0`, `""`);
      a truthy value that is not an object reads as a record with no fields. */
  datatype Payload = Entries(entries: seq<Option<Vehicle>>) | Single(value: Option<Vehicle>)

  /** One element of the response's `results`: `{ code, ok: false, status, error }`
      or `{ code, ok: true, data }`. Exactly one of `error` and `data` exists. */
  datatype LookupResult =
    | Failed(code: string, status: nat, error: string)
    | Found(code: string, data: Payload)

  /** How the upstream call for one code ended. */
  datatype Outcome =
    | HttpError(status: nat, body: string)  // a response whose `ok` is false, with its body text
    | Parsed(data: Payload)                 // an ok response whose body parsed as JSON
    | Threw(message: Option<string>)        // the fetch, the body read or the parse threw; None when not an Error

  const HttpErrorMessage: string := "Erro ao consultar codigo FIPE"
  const UnexpectedMessage: string := "Falha inesperada"
  const NoValidCodesMessage: string := "Informe pelo menos um codigo FIPE no formato 000000-0."

  // ---------------------------------------------------------------------------
  // fetchFipe, after the request
  // ---------------------------------------------------------------------------

  /** The record `fetchFipe(code)` resolves to when the upstream call ends in
      `outcome`. Every outcome becomes a record; none escapes as an error. */
  function FetchFipe(code: string, outcome: Outcome): (r: LookupResult)
    ensures r.code == code
    ensures r.Found? <==> outcome.Parsed?
    ensures outcome.Parsed? ==> r.data == outcome.data
    ensures outcome.HttpError? ==> r.status == outcome.status && Trim(r.error) != ""
    ensures outcome.HttpError? && Trim(outcome.body) != "" ==> r.error == Trim(outcome.body)
    ensures outcome.HttpError? && Trim(outcome.body) == "" ==> r.error == HttpErrorMessage
    ensures outcome.Threw? ==> r.status == 0 && r.error == outcome.message.GetOr(UnexpectedMessage)
  {
    match outcome
    case HttpError(status, body) =>
      var message := Trim(body);
      TrimIdempotent(body);
      TrimOfTrimmed(HttpErrorMessage);
      Failed(code, status, if message != "" then message else HttpErrorMessage)
    case Parsed(data) =>
      Found(code, data)
    case Threw(message) =>
      Failed(code, 0, message.GetOr(UnexpectedMessage))
  }

  // ---------------------------------------------------------------------------
  // mapWithLimit
  // ---------------------------------------------------------------------------

  /** `mapWithLimit(items, limit, mapper)`: `min(limit, |items|)` workers share
      one cursor; each claims the next index and writes `mapper(items[i], i)`
      into slot `i` of a pre-sized array. Because slot `i` receives the result
      for index `i` whichever worker claims it, the outcome is that of one
      worker running alone, which is what is modelled. With no worker
      (`limit < 1`) every slot stays empty. The ghost `claimed` lists the
      indices handed to the mapper, in the order they were claimed. */
  method MapWithLimit<T, R>(items: seq<T>, limit: int, mapper: (T, nat) -> R)
    returns (results: seq<Option<R>>, ghost claimed: seq<nat>)
    ensures |results| == |items|
    ensures limit >= 1 ==> forall i :: 0 <= i < |items| ==> results[i] == Some(mapper(items[i], i))
    ensures limit < 1 ==> forall i :: 0 <= i < |items| ==> results[i] == None
    ensures |claimed| == (if limit >= 1 then |items| else 0)
    ensures forall k :: 0 <= k < |claimed| ==> claimed[k] == k
  {
    var slots := new Option<R>[|items|](_ => None);
    var workers := if limit < |items| then limit else |items|;
    claimed := [];
    if workers >= 1 {
      var index := 0;
      while true
        invariant 0 <= index <= |items|
        invariant forall k :: 0 <= k < index ==> slots[k] == Some(mapper(items[k], k))
        invariant forall k :: index <= k < |items| ==> slots[k] == None
        invariant |claimed| == index && forall k :: 0 <= k < index ==> claimed[k] == k
        decreases |items| - index
      {
        var current := index;
        index := index + 1;
        if current >= |items| {
          break;
        }
        slots[current] := Some(mapper(items[current], current));
        claimed := claimed + [current];
      }
    }
    results := slots[..];
  }

  // ---------------------------------------------------------------------------
  // POST /api/fipe
  // ---------------------------------------------------------------------------

  /** The handler's answer: status 400 with `{ error }`, or `{ count, results }`.
      A result slot is None only when no worker ran. */
  datatype Reply =
    | BadRequest(error: string)
    | Answer(count: nat, results: seq<Option<LookupResult>>)

  /** The codes a request resolves: the payload's codes, then the codes parsed
      from its text, all normalised, invalid ones dropped, deduplicated. */
  function MergedCodes(payloadCodes: seq<string>, text: string): seq<string> {
    Unique(NormalizeAll(payloadCodes + ParsedCodes(text)))
  }

  /** The handler for `POST /api/fipe`. `payloadCodes` is the body's `codes`
      (empty when it is not an array), each element by its `String(...)`
      conversion; `text` is `String(text)` of the body's `text`, or empty when
      that is absent or falsy; `concurrency` is the configured worker count,
      and `upstream` the outcome of fetching each code. The ghost `lookedUp` lists the codes sent upstream. */
  method HandleFipe(payloadCodes: seq<string>, text: string, concurrency: int, upstream: string -> Outcome)
    returns (reply: Reply, ghost lookedUp: seq<string>)
    ensures reply.BadRequest? <==> MergedCodes(payloadCodes, text) == []
    ensures reply.BadRequest? ==> reply.error == NoValidCodesMessage
    ensures reply.Answer? ==> reply.count == |reply.results| == |MergedCodes(payloadCodes, text)|
    ensures reply.Answer? && concurrency >= 1 ==>
      forall i :: 0 <= i < |reply.results| ==>
        reply.results[i] == Some(FetchFipe(MergedCodes(payloadCodes, text)[i], upstream(MergedCodes(payloadCodes, text)[i])))
    ensures reply.Answer? && concurrency < 1 ==> forall i :: 0 <= i < |reply.results| ==> reply.results[i] == None
    ensures reply.Answer? && concurrency >= 1 ==> lookedUp == MergedCodes(payloadCodes, text)
    ensures reply.BadRequest? || concurrency < 1 ==> lookedUp == []
  {
    var textCodes := ParseCodesFromText(text);
    var merged := UniquePreserveOrder(NormalizeAll(payloadCodes + textCodes));
    if |merged| == 0 {
      return BadRequest(NoValidCodesMessage), [];
    }
    var results, claimed := MapWithLimit(merged, concurrency, (code, i) => FetchFipe(code, upstream(code)));
    lookedUp := seq(|claimed|, k requires 0 <= k < |claimed| => merged[claimed[k]]);
    reply := Answer(|results|, results);
  }

  /** Normalising the text's codes a second time changes nothing, so the
      merged codes are the valid payload codes followed by the text's codes,
      deduplicated; all of them are canonical and none appears twice. */
  lemma MergedCodesSpec(payloadCodes: seq<string>, text: string)
    ensures MergedCodes(payloadCodes, text) == Unique(NormalizeAll(payloadCodes) + ParsedCodes(text))
    ensures Distinct(MergedCodes(payloadCodes, text))
    ensures forall c :: c in MergedCodes(payloadCodes, text) ==> IsCanonical(c)
    ensures forall c :: c in MergedCodes(payloadCodes, text) <==> c in NormalizeAll(payloadCodes) || c in ParsedCodes(text)
  {
    var textCodes := ParsedCodes(text);
    FilterMapAppend(NormalizeCode, payloadCodes, textCodes);
    ParsedCodesMembers(text);
    NormalizeAllOfCanonical(textCodes);
    var all := NormalizeAll(payloadCodes) + textCodes;
    UniqueDistinct(all);
    UniqueSameElements(all);
    NormalizeAllMembers(payloadCodes);
  }

  /** A request whose codes are already distinct canonical codes, as the
      browser client sends them, is resolved for exactly those codes, in order. */
  lemma MergedCodesOfCanonical(codes: seq<string>)
    requires Distinct(codes) && forall c :: c in codes ==> IsCanonical(c)
    ensures MergedCodes(codes, "") == codes
  {
    assert codes + ParsedCodes("") == codes;
    NormalizeAllOfCanonical(codes);
    UniqueOfDistinct(codes);
  }

  /** Merging is idempotent: the merged codes, sent again as a request's
      codes, merge to themselves. */
  lemma MergedCodesIdempotent(payloadCodes: seq<string>, text: string)
    ensures MergedCodes(MergedCodes(payloadCodes, text), "") == MergedCodes(payloadCodes, text)
  {
    MergedCodesSpec(payloadCodes, text);
    MergedCodesOfCanonical(MergedCodes(payloadCodes, text));
  }

  /** Worked case: a repeated code and an invalid token leave two lookups. */
  lemma MergedCodesExample()
    ensures MergedCodes(["000001-0", "000001-0", "garbage", "000002-1"], "") == ["000001-0", "000002-1"]
  {
    var raws := ["000001-0", "000001-0", "garbage", "000002-1"];
    assert raws + ParsedCodes("") == raws;
    ExampleNormalizeAll();
    ExampleUnique();
  }

  lemma ExampleNormalizeAll()
    ensures NormalizeAll(["000001-0", "000001-0", "garbage", "000002-1"]) == ["000001-0", "000001-0", "000002-1"]
  {
    var first, bad, second := ["000001-0"], ["garbage"], ["000002-1"];
    assert ["000001-0", "000001-0", "garbage", "000002-1"] == first + (first + (bad + second));
    ExampleTokens();
    FilterMapAppend(NormalizeCode, first, first + (bad + second));
    FilterMapAppend(NormalizeCode, first, bad + second);
    FilterMapAppend(NormalizeCode, bad, second);
  }

  lemma ExampleTokens()
    ensures NormalizeAll(["000001-0"]) == ["000001-0"]
    ensures NormalizeAll(["garbage"]) == []
    ensures NormalizeAll(["000002-1"]) == ["000002-1"]
  {
    CanonicalIsFixedPoint("000001-0");
    CanonicalIsFixedPoint("000002-1");
    GarbageIsInvalid();
  }

  lemma GarbageIsInvalid()
    ensures NormalizeCode("garbage") == None
  {
    NormalizeByDigits("garbage");
    DigitsOfNoDigits("garbage");
  }

  lemma ExampleUnique()
    ensures Unique(["000001-0", "000001-0", "000002-1"]) == ["000001-0", "000002-1"]
  {
    var kept := ["000001-0", "000001-0", "000002-1"];
    assert Unique(kept[..2]) == ["000001-0"] by {
      assert kept[..2][..1] == ["000001-0"];
      assert ["000001-0"][..0] == [];
    }
    assert kept[..2] == ["000001-0", "000001-0"];
  }
}
