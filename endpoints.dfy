/** The read endpoints of the users and products API: the page-size clamp
    of `list_users`/`list_products` and the outcome of
    `get_user`/`get_product`. The store is a parameter: `getDocuments`
    stands for `get_documents(collection, {}, limit)`, `findOne` for
    `db.<collection>.find_one({"_id": ObjectId(id)})`, and `isValid` for
    `ObjectId.is_valid`. */
module Endpoints {
  import opened Values
  import opened Serializer

  /** The two entity kinds the API serves. */
  datatype Kind = User | Product {
    /** The collection the kind is stored in, also the noun used in
        error details. */
    function Collection(): string {
      match this
      case User => "user"
      case Product => "product"
    }
    /** The capitalised noun used in error details. */
    function Title(): string {
      match this
      case User => "User"
      case Product => "Product"
    }
  }

  const MinLimit: int := 1
  const MaxLimit: int := 200
  /** The `limit` query parameter when the request gives none. */
  const DefaultLimit: int := 50

  /** `min(max(limit, 1), 200)`. */
  function ClampLimit(limit: int): (r: int)
    ensures MinLimit <= r <= MaxLimit
    ensures MinLimit <= limit <= MaxLimit ==> r == limit
    ensures limit < MinLimit ==> r == MinLimit
    ensures MaxLimit < limit ==> r == MaxLimit
  {
    var atLeastOne := if limit > MinLimit then limit else MinLimit;
    if atLeastOne < MaxLimit then atLeastOne else MaxLimit
  }

  /** What `get_documents` does: a list of documents, or a PyMongoError. */
  datatype ListAnswer = Docs(docs: seq<Doc>) | ListStoreError(message: string)

  /** `list_users` / `list_products`: fetch at the clamped limit and
      serialize every document; a store error becomes a 500 whose detail
      is the error text. */
  function ListDocuments(kind: Kind, limit: int, getDocuments: (string, int) -> ListAnswer,
                         toText: Value -> Option<string>): (r: Response<seq<Doc>>)
    ensures r.Ok? || (r.status == 500)
    ensures MinLimit <= limit <= MaxLimit ==>
      (r.Ok? <==> getDocuments(kind.Collection(), limit).Docs?)
    ensures r.Ok? ==> exists n :: MinLimit <= n <= MaxLimit && getDocuments(kind.Collection(), n).Docs? &&
                                  r.body == SerializeAll(getDocuments(kind.Collection(), n).docs, toText)
    ensures var answer := getDocuments(kind.Collection(), ClampLimit(limit));
      && (r.Ok? <==> answer.Docs?)
      && (answer.Docs? ==> r.body == SerializeAll(answer.docs, toText))
      && (answer.ListStoreError? ==> r.detail == answer.message)
  {
    var n := ClampLimit(limit);
    match getDocuments(kind.Collection(), n)
    case Docs(docs) => Ok(SerializeAll(docs, toText))
    case ListStoreError(message) => HttpError(500, message)
  }

  /** The store is only ever asked for a page size in [1, 200], and only
      for the kind's own collection: two stores that agree there give
      the same response. */
  lemma ListAsksOnlyInRange(kind: Kind, limit: int, f: (string, int) -> ListAnswer,
                            g: (string, int) -> ListAnswer, toText: Value -> Option<string>)
    requires forall n :: MinLimit <= n <= MaxLimit ==> f(kind.Collection(), n) == g(kind.Collection(), n)
    ensures ListDocuments(kind, limit, f, toText) == ListDocuments(kind, limit, g, toText)
  {
  }

  /** A request outside [1, 200] gets the same response as the clamped
      request: below range the store is asked for 1, above it for 200. */
  lemma ListClamps(kind: Kind, limit: int, getDocuments: (string, int) -> ListAnswer,
                   toText: Value -> Option<string>)
    ensures ListDocuments(kind, limit, getDocuments, toText) ==
            ListDocuments(kind, ClampLimit(limit), getDocuments, toText)
    ensures limit < MinLimit ==>
      ListDocuments(kind, limit, getDocuments, toText) == ListDocuments(kind, MinLimit, getDocuments, toText)
    ensures MaxLimit < limit ==>
      ListDocuments(kind, limit, getDocuments, toText) == ListDocuments(kind, MaxLimit, getDocuments, toText)
  {
  }

  /** Without a `limit` parameter the store is asked for 50 documents:
      two stores that agree there give the same response. */
  lemma DefaultListAsksFifty(kind: Kind, f: (string, int) -> ListAnswer, g: (string, int) -> ListAnswer,
                             toText: Value -> Option<string>)
    requires f(kind.Collection(), 50) == g(kind.Collection(), 50)
    ensures ListDocuments(kind, DefaultLimit, f, toText) == ListDocuments(kind, DefaultLimit, g, toText)
  {
  }

  /** A request already in range is passed to the store unchanged. */
  lemma ListUsesRequestedLimit(kind: Kind, limit: int, getDocuments: (string, int) -> ListAnswer,
                               toText: Value -> Option<string>)
    requires MinLimit <= limit <= MaxLimit
    ensures ListDocuments(kind, limit, getDocuments, toText) ==
      match getDocuments(kind.Collection(), limit)
      case Docs(docs) => Ok(SerializeAll(docs, toText))
      case ListStoreError(message) => HttpError(500, message)
  {
  }

  /** When the store honours the page size it is given, a list response
      never holds more documents than the clamped limit: at most 1 for a
      request below 1, at most 200 for one above 200, and at most the
      request otherwise. */
  lemma ListBounded(kind: Kind, limit: int, getDocuments: (string, int) -> ListAnswer,
                    toText: Value -> Option<string>)
    requires forall n :: MinLimit <= n <= MaxLimit && getDocuments(kind.Collection(), n).Docs? ==>
      |getDocuments(kind.Collection(), n).docs| <= n
    ensures var r := ListDocuments(kind, limit, getDocuments, toText);
      r.Ok? ==> |r.body| <= ClampLimit(limit)
  {
  }

  /** What `find_one` does: the matching document, None, or a
      PyMongoError. */
  datatype LookupAnswer = Found(doc: Doc) | Absent | StoreError(message: string)

  /** The document `find_one` gave, when it is truthy (a non-empty
      dict). */
  predicate FoundDoc(a: LookupAnswer) {
    a.Found? && |a.doc| != 0
  }

  /** `get_user` / `get_product`. */
  function GetDocument(kind: Kind, id: string, isValid: string -> bool,
                       findOne: (string, string) -> LookupAnswer,
                       toText: Value -> Option<string>): (r: Response<Doc>)
    ensures r.HttpError? ==> r.status in {400, 404, 500}
    ensures (r.HttpError? && r.status == 400) <==> !isValid(id)
    ensures !isValid(id) ==> r.detail == "Invalid " + kind.Collection() + " id"
    ensures isValid(id) ==>
      var answer := findOne(kind.Collection(), id);
      && ((r.HttpError? && r.status == 500) <==> answer.StoreError?)
      && (answer.StoreError? ==> r.detail == answer.message)
      && ((r.HttpError? && r.status == 404) <==> (answer.Absent? || (answer.Found? && |answer.doc| == 0)))
      && (r.HttpError? && r.status == 404 ==> r.detail == kind.Title() + " not found")
      && (r.Ok? <==> FoundDoc(answer))
      && (r.Ok? ==> r.body == Serialize(answer.doc, toText))
  {
    if !isValid(id) then HttpError(400, "Invalid " + kind.Collection() + " id")
    else
      match findOne(kind.Collection(), id)
      case StoreError(message) => HttpError(500, message)
      case Absent => HttpError(404, kind.Title() + " not found")
      case Found(doc) =>
        if |doc| == 0 then HttpError(404, kind.Title() + " not found")
        else Ok(Serialize(doc, toText))
  }

  /** A malformed id is rejected before the store is consulted: the
      response does not depend on the store at all. */
  lemma InvalidIdSkipsStore(kind: Kind, id: string, isValid: string -> bool,
                            f: (string, string) -> LookupAnswer, g: (string, string) -> LookupAnswer,
                            toText: Value -> Option<string>)
    requires !isValid(id)
    ensures GetDocument(kind, id, isValid, f, toText) == GetDocument(kind, id, isValid, g, toText)
  {
  }

  /** A successful lookup answers with the document's identifier under
      `id` and without `_id`. */
  lemma FoundCarriesExternalId(kind: Kind, id: string, isValid: string -> bool,
                               findOne: (string, string) -> LookupAnswer,
                               toText: Value -> Option<string>)
    requires isValid(id)
    requires var a := findOne(kind.Collection(), id); a.Found? && InternalIdKey in a.doc
    ensures var r := GetDocument(kind, id, isValid, findOne, toText);
      && r.Ok?
      && InternalIdKey !in r.body
      && r.body[ExternalIdKey] == SerializeId(findOne(kind.Collection(), id).doc[InternalIdKey], toText)
  {
  }
}
