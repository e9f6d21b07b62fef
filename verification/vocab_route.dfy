/** The vocabulary importer's `POST /api/generate-vocab` route. It asks a chat-completion
    service for a JSON array of vocabulary items on a theme, parses the first choice's message
    content, and returns the list unchanged under `vocabulary` when it is an array whose every
    item has a truthy `kanji`, `romaji` and `english` and an array `parts`. Any failure gives
    a 500 with one of two messages. The service call and `JSON.parse` are inputs: the reply is
    a parameter and parsing is an abstract codec. */
module VocabRoute {
  import opened Base
  import opened JsonValue
  import opened Text

  const GENERATE_FAILED := "Failed to generate vocabulary list"
  const PROCESS_FAILED := "Failed to process request"

  /** `{ vocabulary: list }` (200), or `{ error }` with status 500. */
  datatype Response = Vocabulary(items: seq<Json>) | ServerError(error: string)

  /** The service's reply: `response.ok`, and the parsed body (None where `response.json()`
      throws). A fetch that throws is a missing reply. */
  datatype Upstream = Upstream(ok: bool, body: Option<Json>)

  /** JavaScript truthiness of a property's value; None is `undefined`. */
  predicate Truthy(v: Option<Json>)
  {
    match v
    case None => false
    case Some(JNull) => false
    case Some(JBool(b)) => b
    case Some(JNum(n)) => n != 0
    case Some(JStr(s)) => s != []
    case Some(_) => true
  }

  /** `v.key`: throws (None) on `undefined` and `null`, reads an object's field, and is
      `undefined` on other values. */
  function Prop(v: Option<Json>, key: string): Option<Option<Json>>
  {
    match v
    case None => None
    case Some(JNull) => None
    case Some(JObj(fields)) => Some(Get(fields, key))
    case Some(_) => Some(None)
  }

  /** `v[0]`: throws on `undefined` and `null`, reads an array's first element or a string's
      first character, and is `undefined` on other values (an object's "0" key aside). */
  function First(v: Option<Json>): Option<Option<Json>>
  {
    match v
    case None => None
    case Some(JNull) => None
    case Some(JArr(items)) => Some(if items == [] then None else Some(items[0]))
    case Some(JStr(s)) => Some(if s == [] then None else Some(JStr([s[0]])))
    case Some(JObj(fields)) => Some(Get(fields, "0"))
    case Some(_) => Some(None)
  }

  /** `completion.choices[0].message.content`; None where one of the accesses throws. */
  function Content(completion: Json): Option<Option<Json>>
  {
    match Prop(Some(completion), "choices")
    case None => None
    case Some(choices) =>
      match First(choices)
      case None => None
      case Some(choice) =>
        match Prop(choice, "message")
        case None => None
        case Some(message) => Prop(message, "content")
  }

  /** The text `JSON.parse` reads from `content || '[]'`: "[]" for a falsy content, the
      string itself, or the `String()` conversion of another truthy value. None for an array,
      which the model takes as a parse failure. */
  function ParseInput(content: Option<Json>): Option<string>
  {
    if !Truthy(content) then Some("[]")
    else match content.value
      case JStr(s) => Some(s)
      case JBool(_) => Some("true")
      case JNum(n) => Some(IntText(n))
      case JObj(_) => Some("[object Object]")
      case _ => None
  }

  /** The per-item check of the `forEach`: an object with truthy `kanji`, `romaji` and
      `english` and an array `parts`. (On `null` the check throws, with the same outcome.) */
  predicate ValidItem(item: Json)
  {
    && item.JObj?
    && Truthy(Get(item.fields, "kanji"))
    && Truthy(Get(item.fields, "romaji"))
    && Truthy(Get(item.fields, "english"))
    && Get(item.fields, "parts").Some? && Get(item.fields, "parts").value.JArr?
  }

  /** The inner `try`: parse, demand an array, check every item. */
  function ParseVocabulary(content: Option<Json>, codec: JsonCodec): (r: Response)
    ensures r.ServerError? ==> r.error == GENERATE_FAILED
    ensures r.Vocabulary? <==>
      && ParseInput(content).Some?
      && codec.loads(ParseInput(content).value).Some?
      && codec.loads(ParseInput(content).value).value.JArr?
      && forall i | 0 <= i < |codec.loads(ParseInput(content).value).value.items| ::
           ValidItem(codec.loads(ParseInput(content).value).value.items[i])
    ensures r.Vocabulary? ==> codec.loads(ParseInput(content).value) == Some(JArr(r.items))
  {
    match ParseInput(content)
    case None => ServerError(GENERATE_FAILED)
    case Some(text) =>
      match codec.loads(text)
      case Some(JArr(items)) =>
        if forall i | 0 <= i < |items| :: ValidItem(items[i]) then Vocabulary(items)
        else ServerError(GENERATE_FAILED)
      case _ => ServerError(GENERATE_FAILED)
  }

  /** The request reaches the content check: a destructurable request, an OK reply with a JSON
      body, and `choices[0].message.content` readable without throwing. */
  predicate Reaches(request: Option<Json>, upstream: Option<Upstream>)
  {
    && request.Some? && request.value != JNull
    && upstream.Some? && upstream.value.ok && upstream.value.body.Some?
    && Content(upstream.value.body.value).Some?
  }

  /** `POST`: a request body that cannot be destructured, a failed fetch, a non-OK status, a
      body that is not JSON and a reply without `choices[0].message` all reach the outer
      `catch`; then the content is parsed and checked. */
  function Post(request: Option<Json>, upstream: Option<Upstream>, codec: JsonCodec): (r: Response)
    ensures request.Some? && request.value != JNull && upstream.Some? && !upstream.value.ok ==>
      r == ServerError(PROCESS_FAILED)
    ensures r.Vocabulary? ==>
      && upstream.Some? && upstream.value.ok && upstream.value.body.Some?
      && Content(upstream.value.body.value).Some?
      && r == ParseVocabulary(Content(upstream.value.body.value).value, codec)
    ensures r.ServerError? ==> r.error == PROCESS_FAILED || r.error == GENERATE_FAILED
    ensures Reaches(request, upstream) ==> r == ParseVocabulary(Content(upstream.value.body.value).value, codec)
    ensures !Reaches(request, upstream) ==> r == ServerError(PROCESS_FAILED)
  {
    if request.None? || request.value == JNull then ServerError(PROCESS_FAILED)
    else if upstream.None? || !upstream.value.ok || upstream.value.body.None? then ServerError(PROCESS_FAILED)
    else match Content(upstream.value.body.value)
      case None => ServerError(PROCESS_FAILED)
      case Some(content) => ParseVocabulary(content, codec)
  }

  /** A reply whose content is missing or empty yields the empty vocabulary, given a parser
      that reads "[]" as the empty array. */
  lemma MissingContentIsEmpty(content: Option<Json>, codec: JsonCodec)
    requires content.None? || content == Some(JNull) || content == Some(JStr(""))
    requires codec.loads("[]") == Some(JArr([]))
    ensures ParseVocabulary(content, codec) == Vocabulary([])
  {
  }

  /** One invalid item rejects the whole list. */
  lemma OneBadItemRejects(content: Option<Json>, codec: JsonCodec, items: seq<Json>, i: nat)
    requires ParseInput(content).Some? && codec.loads(ParseInput(content).value) == Some(JArr(items))
    requires i < |items| && !ValidItem(items[i])
    ensures ParseVocabulary(content, codec) == ServerError(GENERATE_FAILED)
  {
  }

  /** A parsed value that is not an array is rejected. */
  lemma NotArrayRejects(content: Option<Json>, codec: JsonCodec)
    requires ParseInput(content).Some? && codec.loads(ParseInput(content).value).Some?
    requires !codec.loads(ParseInput(content).value).value.JArr?
    ensures ParseVocabulary(content, codec) == ServerError(GENERATE_FAILED)
  {
  }

  /** The item shape the importer's types declare: `VocabPart { kanji; romaji: string[] }` and
      `VocabItem { kanji; romaji; english; parts }`. */
  datatype VocabPart = VocabPart(kanji: string, romaji: seq<string>)
  datatype VocabItem = VocabItem(kanji: string, romaji: string, english: string, parts: seq<VocabPart>)

  function PartJson(p: VocabPart): Json
  {
    JObj([("kanji", JStr(p.kanji)), ("romaji", JArr(seq(|p.romaji|, k requires 0 <= k < |p.romaji| => JStr(p.romaji[k]))))])
  }

  function ItemJson(v: VocabItem): (r: Json)
    ensures r.JObj? && Get(r.fields, "kanji") == Some(JStr(v.kanji))
    ensures Get(r.fields, "romaji") == Some(JStr(v.romaji)) && Get(r.fields, "english") == Some(JStr(v.english))
    ensures Get(r.fields, "parts").Some? && Get(r.fields, "parts").value.JArr?
  {
    var fields := [("kanji", JStr(v.kanji)), ("romaji", JStr(v.romaji)), ("english", JStr(v.english)),
                   ("parts", JArr(seq(|v.parts|, k requires 0 <= k < |v.parts| => PartJson(v.parts[k]))))];
    assert "parts" != "kanji" && "parts" != "romaji" && "parts" != "english";
    assert "english" != "kanji" && "english" != "romaji" && "romaji" != "kanji";
    assert fields[..3] == fields[..4][..3] && fields[..2] == fields[..3][..2] && fields[..1] == fields[..2][..1];
    assert Get(fields, "english") == Some(JStr(v.english));
    assert Get(fields, "romaji") == Get(fields[..2], "romaji") == Some(JStr(v.romaji));
    assert Get(fields, "kanji") == Get(fields[..1], "kanji") == Some(JStr(v.kanji));
    JObj(fields)
  }

  /** An item of the declared shape passes the check exactly when its three strings are
      non-empty. */
  lemma TypedItemValid(v: VocabItem)
    ensures ValidItem(ItemJson(v)) <==> v.kanji != [] && v.romaji != [] && v.english != []
  {
  }

  /** A reply whose content is the encoding of a list of well-formed items is answered with
      exactly that list, under a lawful codec. */
  lemma WellFormedListAccepted(items: seq<VocabItem>, codec: JsonCodec)
    requires Lawful(codec)
    requires forall i | 0 <= i < |items| :: items[i].kanji != [] && items[i].romaji != [] && items[i].english != []
    ensures var list := seq(|items|, i requires 0 <= i < |items| => ItemJson(items[i]));
      ParseVocabulary(Some(JStr(codec.dumps(JArr(list)))), codec) == Vocabulary(list)
  {
    var list := seq(|items|, i requires 0 <= i < |items| => ItemJson(items[i]));
    assert codec.loads(codec.dumps(JArr(list))) == Some(JArr(list));
    forall i | 0 <= i < |list| ensures ValidItem(list[i]) {
      TypedItemValid(items[i]);
    }
  }
}
