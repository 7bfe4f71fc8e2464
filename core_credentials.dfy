/** The core's credential operations: validation of a credential before it
    is stored, the nullable columns it is stored in, listing with page and
    total counts, and the UUID guards. The store and uuid.Parse are
    parameters. */
module CoreCredentials {
  import opened Common

  /** models.Credential: a credential holds a password or a private key. */
  datatype Credential = Credential(id: string, name: string, privateKey: string, password: string)

  /** The stored credential row. */
  datatype CredentialRow = CredentialRow(uuid: string, name: string, privateKey: NullString, password: NullString)

  /** The columns written by the create and update queries. */
  datatype CredentialParams = CredentialParams(name: string, privateKey: NullString, password: NullString)

  /** A row of the list query: a credential with the page and total counts. */
  datatype ListRow = ListRow(row: CredentialRow, pageCount: int, totalCount: int)

  const ErrNameRequired: string := "credential name is required"
  const ErrSecretRequired: string := "either password or private key is required"
  const ErrBothSecrets: string := "only one of password or private key can be set at a time"

  /** The validation shared by create and update, in its order: the name,
      then a missing secret, then two secrets. A credential passes exactly
      when it has a name and exactly one of password and private key. */
  function ValidateCredential(cred: Credential): (err: Option<string>)
    ensures cred.name == "" ==> err == Some(ErrNameRequired)
    ensures cred.name != "" && cred.password == "" && cred.privateKey == "" ==> err == Some(ErrSecretRequired)
    ensures cred.name != "" && cred.password != "" && cred.privateKey != "" ==> err == Some(ErrBothSecrets)
    ensures err.None? <==> cred.name != "" && ((cred.password == "") != (cred.privateKey == ""))
  {
    if cred.name == "" then Some(ErrNameRequired)
    else if cred.password == "" && cred.privateKey == "" then Some(ErrSecretRequired)
    else if cred.password != "" && cred.privateKey != "" then Some(ErrBothSecrets)
    else None
  }

  /** The nullable column for a field: NULL exactly for the empty string. */
  function ToNull(s: string): (n: NullString)
    ensures n.valid <==> s != ""
    ensures n.str == s
  {
    NullString(s, s != "")
  }

  function Params(cred: Credential): (p: CredentialParams)
    ensures p.name == cred.name
    ensures p.privateKey == ToNull(cred.privateKey) && p.password == ToNull(cred.password)
  {
    CredentialParams(cred.name, ToNull(cred.privateKey), ToNull(cred.password))
  }

  /** The credential read back from a row; a NULL column reads as "". */
  function FromRow(row: CredentialRow): Credential
  {
    Credential(row.uuid, row.name, row.privateKey.str, row.password.str)
  }

  /** A valid credential stores exactly one non-NULL secret column. */
  lemma ValidStoresOneSecret(cred: Credential)
    requires ValidateCredential(cred).None?
    ensures Params(cred).password.valid != Params(cred).privateKey.valid
  {
  }

  /** Storing and reading back keeps the name and both secrets. */
  lemma StoredRoundTrip(cred: Credential, uuid: string)
    ensures var p := Params(cred);
      FromRow(CredentialRow(uuid, p.name, p.privateKey, p.password))
        == cred.(id := uuid)
  {
  }

  /** CreateCredential: an invalid credential fails with its validation
      message and the store is not written; otherwise the store's row is
      read back, or its error returned. */
  function CreateCredential(cred: Credential, store: CredentialParams -> Result<CredentialRow>): (r: Result<Credential>)
    ensures ValidateCredential(cred).Some? ==> r == Err(ValidateCredential(cred).value)
    ensures ValidateCredential(cred).None? ==>
      (r.Ok? <==> store(Params(cred)).Ok?)
      && (r.Ok? ==> r.value == FromRow(store(Params(cred)).value))
      && (r.Err? ==> r.error == store(Params(cred)).error)
  {
    match ValidateCredential(cred)
    case Some(e) => Err(e)
    case None =>
      match store(Params(cred))
      case Err(e) => Err(e)
      case Ok(created) => Ok(FromRow(created))
  }

  /** UpdateCredential: every field is validated before the id is parsed, so
      an invalid credential fails with its validation message whatever the
      id; a malformed id fails without touching the store. */
  function UpdateCredential(id: string, cred: Credential, parseUuid: string -> Result<string>,
                            store: (string, CredentialParams) -> Result<CredentialRow>): (r: Result<Credential>)
    ensures ValidateCredential(cred).Some? ==> r == Err(ValidateCredential(cred).value)
    ensures ValidateCredential(cred).None? && parseUuid(id).Err? ==> r == Err(parseUuid(id).error)
    ensures ValidateCredential(cred).None? && parseUuid(id).Ok? ==>
      var res := store(parseUuid(id).value, Params(cred));
      (r.Ok? <==> res.Ok?) && (r.Ok? ==> r.value == FromRow(res.value))
  {
    match ValidateCredential(cred)
    case Some(e) => Err(e)
    case None =>
      match parseUuid(id)
      case Err(e) => Err(e)
      case Ok(u) =>
        match store(u, Params(cred))
        case Err(e) => Err(e)
        case Ok(updated) => Ok(FromRow(updated))
  }

  /** GetCredentialByID: a malformed id fails before the store is read. */
  function GetCredentialById(id: string, parseUuid: string -> Result<string>,
                             get: string -> Result<CredentialRow>): (r: Result<Credential>)
    ensures parseUuid(id).Err? ==> r == Err(parseUuid(id).error)
    ensures parseUuid(id).Ok? ==>
      (r.Ok? <==> get(parseUuid(id).value).Ok?)
      && (r.Ok? ==> r.value == FromRow(get(parseUuid(id).value).value))
  {
    match parseUuid(id)
    case Err(e) => Err(e)
    case Ok(u) =>
      match get(u)
      case Err(e) => Err(e)
      case Ok(row) => Ok(FromRow(row))
  }

  /** DeleteCredential: a malformed id fails before the store is called;
      otherwise the store's answer. */
  function DeleteCredential(id: string, parseUuid: string -> Result<string>,
                            delete: string -> Option<string>): (err: Option<string>)
    ensures parseUuid(id).Err? ==> err == Some(parseUuid(id).error)
    ensures parseUuid(id).Ok? ==> err == delete(parseUuid(id).value)
  {
    match parseUuid(id)
    case Err(e) => Some(e)
    case Ok(u) => delete(u)
  }

  const TwoTo32: int := 0x1_0000_0000
  const TwoTo31: int := 0x8000_0000

  /** Go's int32(x): the low 32 bits of x read as a signed number. */
  function Int32Of(x: int): (r: int)
    ensures -TwoTo31 <= r < TwoTo31
    ensures (r - x) % TwoTo32 == 0
  {
    var low := x % TwoTo32;
    if low >= TwoTo31 then low - TwoTo32 else low
  }

  /** Values already in range pass through the conversion unchanged. */
  lemma Int32OfInRange(x: int)
    requires -TwoTo31 <= x < TwoTo31
    ensures Int32Of(x) == x
  {
    if x < 0 {
      assert x % TwoTo32 == x + TwoTo32;
    }
  }

  /** ListCredentials: the limit and offset are narrowed to int32; on a
      store error no results and counts -1, -1; otherwise one credential
      per row in row order, with the first row's page and total counts, or
      0, 0 when there are no rows. `query` is the limit and offset the store
      was asked for. */
  method ListCredentials(limit: int, offset: int, list: (int, int) -> Result<seq<ListRow>>)
    returns (results: seq<Credential>, pageCount: int, totalCount: int, err: Option<string>, query: (int, int))
    ensures query == (Int32Of(limit), Int32Of(offset))
    ensures list(query.0, query.1).Err? ==>
      results == [] && pageCount == -1 && totalCount == -1 && err == Some(list(query.0, query.1).error)
    ensures list(query.0, query.1).Ok? ==>
      var rows := list(query.0, query.1).value;
      && err.None?
      && |results| == |rows|
      && (forall i :: 0 <= i < |rows| ==> results[i] == FromRow(rows[i].row))
      && (|rows| > 0 ==> pageCount == rows[0].pageCount && totalCount == rows[0].totalCount)
      && (|rows| == 0 ==> pageCount == 0 && totalCount == 0)
  {
    query := (Int32Of(limit), Int32Of(offset));
    var res := list(query.0, query.1);
    if res.Err? {
      return [], -1, -1, Some(res.error), query;
    }
    var rows := res.value;
    results := [];
    var i := 0;
    while i < |rows|
      invariant 0 <= i <= |rows|
      invariant |results| == i
      invariant forall j :: 0 <= j < i ==> results[j] == FromRow(rows[j].row)
    {
      results := results + [FromRow(rows[i].row)];
      i := i + 1;
    }
    err := None;
    if |rows| > 0 {
      pageCount, totalCount := rows[0].pageCount, rows[0].totalCount;
    } else {
      pageCount, totalCount := 0, 0;
    }
  }
}
