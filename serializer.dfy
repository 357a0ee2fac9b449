/** Document serializer: `serialize_id` and `serialize_doc` of main.py.
    A stored document keeps its identifier under `_id`; the JSON-safe
    output carries it, turned into text, under `id` instead. */
module Serializer {
  import opened Values

  /** The store's internal identifier key. */
  const InternalIdKey: string := "_id"
  /** The key of the external identifier in responses. */
  const ExternalIdKey: string := "id"

  /** `serialize_id`: `str(obj_id)`, or the object itself when `str`
      raises. `toText` stands for Python's `str` on an arbitrary object;
      `None` means that it raised. */
  function SerializeId(v: Value, toText: Value -> Option<string>): (r: Value)
    ensures toText(v).Some? ==> r.Str? && r.s == toText(v).value
    ensures toText(v).None? ==> r == v
  {
    match toText(v)
    case Some(text) => Str(text)
    case None => v
  }

  /** The value `serialize_doc` returns, as a map. An empty (falsy)
      document is returned as it is; otherwise `_id`, when present, is
      popped and its serialized form stored under `id`. */
  function Serialize(doc: Doc, toText: Value -> Option<string>): (r: Doc)
    ensures InternalIdKey in doc ==>
      && InternalIdKey !in r
      && ExternalIdKey in r
      && r[ExternalIdKey] == SerializeId(doc[InternalIdKey], toText)
    ensures InternalIdKey !in doc ==> r == doc
    ensures forall k :: k != InternalIdKey && k != ExternalIdKey ==> (k in r <==> k in doc)
    ensures forall k :: k in r && k != ExternalIdKey ==> k in doc && r[k] == doc[k]
  {
    if |doc| == 0 then doc
    else if InternalIdKey in doc then
      (doc - {InternalIdKey})[ExternalIdKey := SerializeId(doc[InternalIdKey], toText)]
    else doc
  }

  /** The key set of a serialized document: `_id` is replaced by `id`,
      every other key stays. */
  lemma SerializeKeys(doc: Doc, toText: Value -> Option<string>)
    ensures Serialize(doc, toText).Keys ==
      if InternalIdKey in doc then doc.Keys - {InternalIdKey} + {ExternalIdKey} else doc.Keys
  {
  }

  /** No field is lost besides `_id`, and a pre-existing `id` is the only
      one that can be overwritten: the serialized document has as many
      keys as the stored one, one fewer when it had both `_id` and `id`. */
  lemma SerializeSize(doc: Doc, toText: Value -> Option<string>)
    ensures |Serialize(doc, toText)| ==
      if InternalIdKey in doc && ExternalIdKey in doc then |doc| - 1 else |doc|
  {
    var r := Serialize(doc, toText);
    if InternalIdKey in doc {
      SerializeKeys(doc, toText);
      var rest := doc.Keys - {InternalIdKey};
      assert |rest| == |doc.Keys| - 1;
      if ExternalIdKey in doc {
        assert r.Keys == rest;
      } else {
        assert ExternalIdKey !in rest;
        assert |rest + {ExternalIdKey}| == |rest| + 1;
      }
      assert |r| == |r.Keys|;
    }
  }

  /** Serializing an already serialized document changes nothing. */
  lemma SerializeIdempotent(doc: Doc, toText: Value -> Option<string>)
    ensures Serialize(Serialize(doc, toText), toText) == Serialize(doc, toText)
  {
  }

  /** Round trip: a stored document without its own `id` field is
      recovered from its serialized form by putting the original
      identifier back under `_id` and dropping `id`. */
  lemma SerializeRestores(doc: Doc, toText: Value -> Option<string>)
    requires InternalIdKey in doc && ExternalIdKey !in doc
    ensures (Serialize(doc, toText) - {ExternalIdKey})[InternalIdKey := doc[InternalIdKey]] == doc
  {
  }

  /** `[serialize_doc(d) for d in docs]`. */
  function SerializeAll(docs: seq<Doc>, toText: Value -> Option<string>): (r: seq<Doc>)
    ensures |r| == |docs|
    ensures forall i :: 0 <= i < |docs| ==> r[i] == Serialize(docs[i], toText)
  {
    if docs == [] then []
    else [Serialize(docs[0], toText)] + SerializeAll(docs[1..], toText)
  }

  /** A Python dict that code can update in place. */
  class Dict {
    var entries: map<string, Value>

    /** `dict(init)`: a fresh dict holding a copy of the entries. */
    constructor (init: map<string, Value>)
      ensures entries == init
    {
      entries := init;
    }

    /** `d.pop(k)` on a present key. */
    method Pop(k: string) returns (v: Value)
      requires k in entries
      modifies this
      ensures v == old(entries)[k]
      ensures entries == old(entries) - {k}
    {
      v := entries[k];
      entries := entries - {k};
    }

    /** `d[k] = v`. */
    method Store(k: string, v: Value)
      modifies this
      ensures entries == old(entries)[k := v]
    {
      entries := entries[k := v];
    }
  }

  /** `serialize_doc`: an empty document is returned as the very same
      dict; any other is copied, and only the copy is changed. The
      caller's dict is never modified (the method modifies nothing that
      existed before the call). */
  method SerializeDoc(doc: Dict, toText: Value -> Option<string>) returns (r: Dict)
    ensures |doc.entries| == 0 ==> r == doc
    ensures |doc.entries| != 0 ==> fresh(r)
    ensures r.entries == Serialize(doc.entries, toText)
  {
    if |doc.entries| == 0 {
      return doc;
    }
    r := new Dict(doc.entries);
    if InternalIdKey in r.entries {
      var internalId := r.Pop(InternalIdKey);
      r.Store(ExternalIdKey, SerializeId(internalId, toText));
    }
  }
}
