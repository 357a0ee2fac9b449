/** The health report of `GET /api/health` (and its alias `GET /test`).
    What the report depends on is passed in: how importing the database
    module went, the connection handle, and the two environment
    variables. */
module Health {
  import opened Values

  /** What `list_collection_names()` does. */
  datatype Listing = Listed(names: seq<string>) | ListFailed(error: string)

  /** The module-level `db` of the database module: `None`, or a handle
      with an optional `name` attribute. */
  datatype Handle = NoHandle | Handle(name: Option<string>, listing: Listing)

  /** Outcome of `from database import db`: an ImportError, some other
      exception, or the handle. */
  datatype DbModule = ImportFailed | ImportRaised(error: string) | Imported(db: Handle)

  /** The environment variables the report reads (`None` when unset). */
  datatype Env = Env(databaseUrl: Option<string>, databaseName: Option<string>)

  const BackendRunning: string := "✅ Running"
  const NotAvailable: string := "❌ Not Available"
  const Available: string := "✅ Available"
  const ConnectedWorking: string := "✅ Connected & Working"
  const NotInitialized: string := "⚠️  Available but not initialized"
  const ModuleNotFound: string := "❌ Database module not found"
  const ConnectedErrorPrefix: string := "⚠️  Connected but Error: "
  const ErrorPrefix: string := "❌ Error: "
  const NotConnected: string := "Not Connected"
  const Connected: string := "Connected"
  const VarSet: string := "✅ Set"
  const VarNotSet: string := "❌ Not Set"

  /** Longest error text a report quotes. */
  const MaxErrorText: nat := 100
  /** Most collection names a report lists. */
  const MaxCollections: nat := 10

  /** The keys every report has. */
  const ReportKeys: set<string> :=
    {"backend", "database", "database_url", "database_name", "connection_status", "collections"}

  /** `"✅ Set" if os.getenv(var) else "❌ Not Set"`. */
  function SetLabel(v: Option<string>): (r: string)
    ensures r == VarSet <==> Truthy(v)
    ensures r == VarSet || r == VarNotSet
  {
    if Truthy(v) then VarSet else VarNotSet
  }

  /** `f"{prefix}{str(e)[:100]}"`. */
  function ErrorText(prefix: string, error: string): (r: string)
    ensures |prefix| <= |r| <= |prefix| + MaxErrorText
    ensures r[..|prefix|] == prefix
    ensures |r| - |prefix| <= |error|
    ensures forall i :: |prefix| <= i < |r| ==> r[i] == error[i - |prefix|]
    ensures |error| <= MaxErrorText ==> r == prefix + error
    ensures |error| > MaxErrorText ==> r == prefix + error[..MaxErrorText]
  {
    prefix + Take(error, MaxErrorText)
  }

  /** Listing the collections succeeded. */
  predicate IsConnected(m: DbModule) {
    m.Imported? && m.db.Handle? && m.db.listing.Listed?
  }

  /** `health()`. The report is built up key by key as the branches are
      taken; at the end the legacy keys overwrite `database_url` and
      `database_name`. */
  method Health(m: DbModule, env: Env) returns (response: map<string, Value>)
    ensures response.Keys == ReportKeys
    ensures response["backend"] == Str(BackendRunning)
    ensures response["database_url"] == Str(SetLabel(env.databaseUrl))
    ensures response["database_name"] == Str(SetLabel(env.databaseName))
    ensures response["connection_status"] == Str(if IsConnected(m) then Connected else NotConnected)
    ensures response["collections"] ==
      Arr(if IsConnected(m) then Strs(Take(m.db.listing.names, MaxCollections)) else [])
    ensures m.ImportFailed? ==> response["database"] == Str(ModuleNotFound)
    ensures m.ImportRaised? ==> response["database"] == Str(ErrorText(ErrorPrefix, m.error))
    ensures m.Imported? && m.db.NoHandle? ==> response["database"] == Str(NotInitialized)
    ensures response["database"] == Str(ConnectedWorking) <==> IsConnected(m)
    ensures m.Imported? && m.db.Handle? && m.db.listing.ListFailed? ==>
      response["database"] == Str(ErrorText(ConnectedErrorPrefix, m.db.listing.error))
  {
    response := map[
      "backend" := Str(BackendRunning),
      "database" := Str(NotAvailable),
      "database_url" := Null,
      "database_name" := Null,
      "connection_status" := Str(NotConnected),
      "collections" := Arr([])
    ];
    match m {
      case ImportFailed =>
        response := response["database" := Str(ModuleNotFound)];
      case ImportRaised(error) =>
        var text := ErrorText(ErrorPrefix, error);
        assert text[0] == ErrorPrefix[0] != ConnectedWorking[0];
        response := response["database" := Str(text)];
      case Imported(db) =>
        if db.NoHandle? {
          response := response["database" := Str(NotInitialized)];
        } else {
          response := response["database" := Str(Available)];
          response := response["database_url" := Str(SetLabel(env.databaseUrl))];
          var name := match db.name
            case Some(n) => Str(n)
            case None => if env.databaseName.Some? then Str(env.databaseName.value) else Null;
          response := response["database_name" := name];
          match db.listing {
            case Listed(names) =>
              response := response["collections" := Arr(Strs(Take(names, MaxCollections)))];
              response := response["connection_status" := Str(Connected)];
              response := response["database" := Str(ConnectedWorking)];
            case ListFailed(error) =>
              var text := ErrorText(ConnectedErrorPrefix, error);
              assert text[0] == ConnectedErrorPrefix[0] != ConnectedWorking[0];
              response := response["database" := Str(text)];
          }
        }
    }
    var legacy := map[
      "database_url" := Str(SetLabel(env.databaseUrl)),
      "database_name" := Str(SetLabel(env.databaseName))
    ];
    response := response + legacy;
  }
}
