/** The schema description of `GET /api/schema`. The members of the
    schemas module, which the service finds by reflection, are given here
    as an explicit list, each with its field declarations in declaration
    order. */
module Schema {

  /** One declared field: its name, the text of its type annotation, and
      whether the model requires it. */
  datatype FieldDecl = FieldDecl(name: string, annotation: string, required: bool)

  /** No two declarations share a name. */
  predicate DistinctNames(fields: seq<FieldDecl>) {
    forall i, j :: 0 <= i < j < |fields| ==> fields[i].name != fields[j].name
  }

  /** The fields of a model, in declaration order. They come from the
      dict `model.model_fields`, so each name occurs once. */
  type FieldList = fields: seq<FieldDecl> | DistinctNames(fields) witness []

  /** What a member of the schemas module is: something other than a
      pydantic model, the `BaseModel` class itself, or a model class. */
  datatype MemberKind = NotAModel | BaseModelItself | Model(fields: FieldList)

  datatype Member = Member(name: string, kind: MemberKind)

  /** The description of one model. */
  datatype SchemaEntry = SchemaEntry(collection: string, fields: map<string, string>, required: seq<string>)

  predicate IsUpper(c: char) {
    'A' <= c <= 'Z'
  }

  /** ASCII lower-casing of one character. */
  function LowerChar(c: char): (r: char)
    ensures !IsUpper(r)
    ensures IsUpper(c) ==> r as int == c as int - 'A' as int + 'a' as int
    ensures !IsUpper(c) ==> r == c
  {
    if IsUpper(c) then (c as int - 'A' as int + 'a' as int) as char else c
  }

  /** `name.lower()`, on ASCII letters. */
  function Lower(s: string): (r: string)
    ensures |r| == |s|
    ensures forall i :: 0 <= i < |s| ==> r[i] == LowerChar(s[i])
  {
    if s == [] then [] else [LowerChar(s[0])] + Lower(s[1..])
  }

  /** Lower-casing twice is lower-casing once. */
  lemma LowerIdempotent(s: string)
    ensures Lower(Lower(s)) == Lower(s)
  {
  }

  /** The set of names among the field declarations. */
  function FieldNames(fields: seq<FieldDecl>): set<string> {
    set f | f in fields :: f.name
  }

  /** No later declaration has the same name as `fields[i]`. */
  predicate LastDeclared(fields: seq<FieldDecl>, i: int)
    requires 0 <= i < |fields|
  {
    forall j :: i < j < |fields| ==> fields[j].name != fields[i].name
  }

  /** `{k: str(v.annotation) for k, v in model.model_fields.items()}`: one
      entry per declared name, the last declaration winning. */
  function FieldTypes(fields: seq<FieldDecl>): (r: map<string, string>)
    ensures r.Keys == FieldNames(fields)
    ensures forall i :: 0 <= i < |fields| && LastDeclared(fields, i) ==>
      r[fields[i].name] == fields[i].annotation
  {
    if fields == [] then map[]
    else
      var init := fields[..|fields| - 1];
      var last := fields[|fields| - 1];
      assert fields == init + [last];
      FieldTypes(init)[last.name := last.annotation]
  }

  /** `[k for k, v in model.model_fields.items() if v.is_required()]`. */
  function RequiredNames(fields: seq<FieldDecl>): (r: seq<string>)
    ensures |r| <= |fields|
    ensures forall x :: x in r ==> exists f :: f in fields && f.required && f.name == x
    ensures forall f :: f in fields && f.required ==> f.name in r
  {
    if fields == [] then []
    else (if fields[0].required then [fields[0].name] else []) + RequiredNames(fields[1..])
  }

  /** The required names keep declaration order: the list for a
      concatenation is the concatenation of the lists. */
  lemma {:induction false} RequiredNamesAppend(a: seq<FieldDecl>, b: seq<FieldDecl>)
    ensures RequiredNames(a + b) == RequiredNames(a) + RequiredNames(b)
  {
    if a == [] {
      assert a + b == b;
    } else {
      assert (a + b)[1..] == a[1..] + b;
      RequiredNamesAppend(a[1..], b);
    }
  }

  /** With distinct names, every declaration is the last of its name,
      and a name is listed as required exactly when its declaration is
      flagged required. */
  lemma DistinctFieldsAgree(fields: FieldList)
    ensures forall i :: 0 <= i < |fields| ==> LastDeclared(fields, i)
    ensures forall i :: 0 <= i < |fields| ==>
      (fields[i].name in RequiredNames(fields) <==> fields[i].required)
  {
    forall i | 0 <= i < |fields| && fields[i].name in RequiredNames(fields)
      ensures fields[i].required
    {
      var f :| f in fields && f.required && f.name == fields[i].name;
      var j :| 0 <= j < |fields| && fields[j] == f;
      assert j == i;
    }
  }

  /** The entry for one model: its collection is the lower-cased model
      name, each field maps to its annotation, and `required` lists, in
      declaration order, exactly the fields flagged required, all of
      which are keys of `fields`. */
  function Describe(name: string, fields: FieldList): (e: SchemaEntry)
    ensures e.collection == Lower(name)
    ensures e.fields == FieldTypes(fields) && e.required == RequiredNames(fields)
    ensures e.fields.Keys == FieldNames(fields)
    ensures forall i :: 0 <= i < |fields| ==> e.fields[fields[i].name] == fields[i].annotation
    ensures forall i :: 0 <= i < |fields| ==> (fields[i].name in e.required <==> fields[i].required)
    ensures forall x :: x in e.required ==> x in e.fields
  {
    DistinctFieldsAgree(fields);
    SchemaEntry(Lower(name), FieldTypes(fields), RequiredNames(fields))
  }

  /** The names of the model classes among the members. */
  function ModelNames(members: seq<Member>): set<string> {
    set m | m in members && m.kind.Model? :: m.name
  }

  /** Extending the member list by one member adds its name when it is a
      model. */
  lemma ModelNamesSnoc(members: seq<Member>, m: Member)
    ensures ModelNames(members + [m]) == ModelNames(members) + (if m.kind.Model? then {m.name} else {})
  {
    var ext := members + [m];
    forall n | n in ModelNames(ext)
      ensures n in ModelNames(members) + (if m.kind.Model? then {m.name} else {})
    {
      var w :| w in ext && w.kind.Model? && w.name == n;
      if w != m {
        assert w in members;
      }
    }
    forall w | w in members
      ensures w in ext
    {
    }
  }

  /** What every entry of the schema satisfies. */
  predicate WellDescribed(name: string, e: SchemaEntry) {
    e.collection == Lower(name) && forall x :: x in e.required ==> x in e.fields
  }

  /** `members[i]` is a model and no model among `members[i+1..upto]`
      has its name. */
  predicate LastModelBefore(members: seq<Member>, i: int, upto: int)
    requires 0 <= i < upto <= |members|
  {
    && members[i].kind.Model?
    && forall j :: i < j < upto && members[j].kind.Model? ==> members[j].name != members[i].name
  }

  /** The entry `get_schema` builds for a member; only ever asked of
      models. */
  function EntryOf(m: Member): SchemaEntry {
    Describe(m.name, if m.kind.Model? then m.kind.fields else [])
  }

  /** Every model among `members[..upto]` that no later model there
      shadows is mapped in `schema` to `entry` of it. */
  ghost predicate MapsLastModels<E>(members: seq<Member>, upto: int, schema: map<string, E>, entry: Member -> E)
    requires 0 <= upto <= |members|
  {
    forall i :: 0 <= i < upto && LastModelBefore(members, i, upto) ==>
      members[i].name in schema && schema[members[i].name] == entry(members[i])
  }

  /** One step of the loop of `get_schema` keeps `MapsLastModels`: the
      member just stored wins, and the ones it does not shadow keep their
      entries. */
  lemma MapsLastModelsStep<E>(members: seq<Member>, k: int, schema: map<string, E>, entry: Member -> E)
    requires 0 <= k < |members|
    requires MapsLastModels(members, k, schema, entry)
    ensures var m := members[k];
      MapsLastModels(members, k + 1, if m.kind.Model? then schema[m.name := entry(m)] else schema, entry)
  {
    var m := members[k];
    var next := if m.kind.Model? then schema[m.name := entry(m)] else schema;
    forall i | 0 <= i < k + 1 && LastModelBefore(members, i, k + 1)
      ensures members[i].name in next && next[members[i].name] == entry(members[i])
    {
      if i < k {
        assert LastModelBefore(members, i, k);
      }
    }
    assert MapsLastModels(members, k + 1, next, entry);
  }

  /** `get_schema()`: one entry per model class, keyed by its name; the
      `BaseModel` class itself and everything that is not a model are
      skipped. */
  method GetSchema(members: seq<Member>) returns (schema: map<string, SchemaEntry>)
    ensures schema.Keys == ModelNames(members)
    ensures forall i :: 0 <= i < |members| && LastModelBefore(members, i, |members|) ==>
      schema[members[i].name] == Describe(members[i].name, members[i].kind.fields)
    ensures forall n :: n in schema ==> WellDescribed(n, schema[n])
  {
    schema := map[];
    for k := 0 to |members|
      invariant schema.Keys == ModelNames(members[..k])
      invariant MapsLastModels(members, k, schema, EntryOf)
      invariant forall n :: n in schema ==> WellDescribed(n, schema[n])
    {
      var member := members[k];
      assert members[..k + 1] == members[..k] + [member];
      ModelNamesSnoc(members[..k], member);
      MapsLastModelsStep(members, k, schema, EntryOf);
      if member.kind.Model? {
        schema := schema[member.name := EntryOf(member)];
      }
    }
    assert members[..|members|] == members;
  }
}
