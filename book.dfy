/**
 * One catalog entry (Python class `Book`) and its on-disk form: a dictionary
 * with the five keys "id", "title", "author", "year" and "status".
 */
module BookRecord {

  /** The two status literals, which are also the values written to disk. */
  const AVAILABLE: string := "в наличии"
  const CHECKED_OUT: string := "выдана"

  predicate IsAllowedStatus(s: string) {
    s == AVAILABLE || s == CHECKED_OUT
  }

  /**
   * A book. The status is any text here, as in the source's constructor;
   * only the catalog restricts it to the two literals.
   */
  datatype Book = Book(id: int, title: string, author: string, year: int, status: string)

  /** A JSON value as far as validation can tell: an int, a string, or anything else. */
  datatype Value = VInt(i: int) | VStr(s: string) | VOther

  /** One decoded JSON object of the data file. */
  type RawEntry = map<string, Value>

  /** The kinds `validate_dict` checks with `isinstance`. */
  datatype FieldType = IntField | StrField

  /** The required keys with their kinds, in the order `validate_dict` checks them. */
  const REQUIRED_FIELDS: seq<(string, FieldType)> :=
    [("id", IntField), ("title", StrField), ("author", StrField), ("year", IntField), ("status", StrField)]

  predicate HasType(v: Value, t: FieldType) {
    match t
    case IntField => v.VInt?
    case StrField => v.VStr?
  }

  /** The five keys are present, each with the kind a book needs. */
  predicate IsWellTyped(d: RawEntry) {
    && "id" in d && d["id"].VInt?
    && "title" in d && d["title"].VStr?
    && "author" in d && d["author"].VStr?
    && "year" in d && d["year"].VInt?
    && "status" in d && d["status"].VStr?
  }

  /** A well-formed book: well typed and with one of the two status literals. */
  predicate IsValidDict(d: RawEntry) {
    IsWellTyped(d) && IsAllowedStatus(d["status"].s)
  }

  /** `Book.to_dict`. */
  function ToDict(b: Book): (d: RawEntry)
    ensures IsWellTyped(d)
    ensures d.Keys == {"id", "title", "author", "year", "status"}
  {
    map["id" := VInt(b.id), "title" := VStr(b.title), "author" := VStr(b.author),
        "year" := VInt(b.year), "status" := VStr(b.status)]
  }

  /** `Book.from_dict`: reads the five keys; it does not check the status. */
  function FromDict(d: RawEntry): (b: Book)
    requires IsWellTyped(d)
    ensures ToDict(b) == map k | k in d && k in {"id", "title", "author", "year", "status"} :: d[k]
    ensures IsAllowedStatus(b.status) <==> IsValidDict(d)
  {
    Book(d["id"].i, d["title"].s, d["author"].s, d["year"].i, d["status"].s)
  }

  /**
   * `Book.validate_dict`: walks the required keys in order and gives up at
   * the first one that is missing or of the wrong kind, then checks the status.
   */
  method ValidateDict(d: RawEntry) returns (ok: bool)
    ensures ok <==> IsValidDict(d)
  {
    for k := 0 to |REQUIRED_FIELDS|
      invariant forall j | 0 <= j < k :: REQUIRED_FIELDS[j].0 in d && HasType(d[REQUIRED_FIELDS[j].0], REQUIRED_FIELDS[j].1)
    {
      var (name, kind) := REQUIRED_FIELDS[k];
      if name !in d || !HasType(d[name], kind) {
        return false;
      }
    }
    assert IsWellTyped(d) by {
      assert REQUIRED_FIELDS[0].0 in d && HasType(d[REQUIRED_FIELDS[0].0], REQUIRED_FIELDS[0].1);
      assert REQUIRED_FIELDS[1].0 in d && HasType(d[REQUIRED_FIELDS[1].0], REQUIRED_FIELDS[1].1);
      assert REQUIRED_FIELDS[2].0 in d && HasType(d[REQUIRED_FIELDS[2].0], REQUIRED_FIELDS[2].1);
      assert REQUIRED_FIELDS[3].0 in d && HasType(d[REQUIRED_FIELDS[3].0], REQUIRED_FIELDS[3].1);
      assert REQUIRED_FIELDS[4].0 in d && HasType(d[REQUIRED_FIELDS[4].0], REQUIRED_FIELDS[4].1);
    }
    ok := d["status"].s in {AVAILABLE, CHECKED_OUT};
  }

  /** Reading back what `to_dict` wrote gives the same book. */
  lemma FromDictToDict(b: Book)
    ensures FromDict(ToDict(b)) == b
  {
  }

  /** What `to_dict` writes passes validation exactly when the status is one of the literals. */
  lemma ToDictValid(b: Book)
    ensures IsValidDict(ToDict(b)) <==> IsAllowedStatus(b.status)
  {
  }

  /**
   * The other direction of the round trip: a well-typed dictionary with no
   * keys besides the five is rebuilt exactly by `to_dict` after `from_dict`.
   */
  lemma ToDictFromDict(d: RawEntry)
    requires IsWellTyped(d)
    requires d.Keys == {"id", "title", "author", "year", "status"}
    ensures ToDict(FromDict(d)) == d
  {
  }
}
