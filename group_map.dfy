/**
 * `read_group_map`: turns the mapping table into a dictionary from channel id
 * (`tvg_id`) to group id (`group_id`). The CSV file is given already split into
 * a header and one field map per record, as `csv.DictReader` hands them over.
 */
module GroupMap {
  import opened Wrappers
  import opened Text

  /** One record: column name to field text; a field the record lacks is absent. */
  type Row = map<string, string>

  /** The decoded table: `fieldnames` (None when the file is empty) and the records. */
  datatype Table = Table(header: Option<seq<string>>, rows: seq<Row>)

  /** The two `ValueError`s the source raises. */
  datatype MapError =
    | NoHeader        // "CSV has no header"
    | MissingColumns  // "CSV must have columns tvg_id and group_id"

  /** `row.get(name) or ""` */
  function Field(row: Row, name: string): string {
    if name in row then row[name] else ""
  }

  function KeyOf(row: Row): string {
    Strip(Field(row, "tvg_id"))
  }

  function GroupOf(row: Row): string {
    Strip(Field(row, "group_id"))
  }

  /** A row contributes a mapping only when both trimmed fields are non-empty. */
  predicate Qualifies(row: Row) {
    KeyOf(row) != [] && GroupOf(row) != []
  }

  /** Non-empty, and neither end is whitespace. */
  predicate Trimmed(s: string) {
    s != [] && !IsSpace(s[0]) && !IsSpace(s[|s| - 1])
  }

  /** The header check, in the source's order; None when the header is acceptable. */
  function HeaderError(header: Option<seq<string>>): (e: Option<MapError>)
    ensures e == Some(NoHeader) <==> header == None || header == Some([])
    ensures e == None <==> header.Some? && "tvg_id" in header.value && "group_id" in header.value
  {
    if header.None? || header.value == [] then Some(NoHeader)
    else if "tvg_id" !in header.value || "group_id" !in header.value then Some(MissingColumns)
    else None
  }

  /** What one row adds to the mapping: its trimmed pair, when it qualifies. */
  function Contribution(row: Row): (c: Option<(string, string)>)
    ensures c.Some? <==> Qualifies(row)
    ensures c.Some? ==> c.value == (KeyOf(row), GroupOf(row))
  {
    var k := KeyOf(row);
    var g := GroupOf(row);
    if k != [] && g != [] then Some((k, g)) else None
  }

  function Contributions(rows: seq<Row>): (ps: seq<Option<(string, string)>>)
    ensures |ps| == |rows|
  {
    seq(|rows|, i requires 0 <= i < |rows| => Contribution(rows[i]))
  }

  /** Pairs applied in order to an empty dictionary, later ones overwriting. */
  function Fold(ps: seq<Option<(string, string)>>): map<string, string> {
    if ps == [] then map[]
    else
      var m := Fold(ps[..|ps| - 1]);
      match ps[|ps| - 1]
      case None => m
      case Some((k, g)) => m[k := g]
  }

  /** The mapping the row loop builds. */
  function MapOf(rows: seq<Row>): (r: map<string, string>)
    ensures |r| <= |rows|
  {
    FoldSize(Contributions(rows));
    Fold(Contributions(rows))
  }

  /** Each pair adds at most one key. */
  lemma {:induction false} FoldSize(ps: seq<Option<(string, string)>>)
    ensures |Fold(ps)| <= |ps|
  {
    if ps != [] {
      FoldSize(ps[..|ps| - 1]);
    }
  }

  method ReadGroupMap(table: Table) returns (r: Result<map<string, string>, MapError>)
    ensures r.Failure? <==> HeaderError(table.header).Some?
    ensures r.Failure? ==> Some(r.error) == HeaderError(table.header)
    ensures r.Success? ==> r.value == MapOf(table.rows)
  {
    if table.header.None? || table.header.value == [] {
      return Failure(NoHeader);
    }
    var names := table.header.value;
    if "tvg_id" !in names || "group_id" !in names {
      return Failure(MissingColumns);
    }
    var mapping: map<string, string> := map[];
    var i := 0;
    while i < |table.rows|
      invariant 0 <= i <= |table.rows|
      invariant mapping == MapOf(table.rows[..i])
    {
      var row := table.rows[i];
      var tvgId := Strip(Field(row, "tvg_id"));
      var groupId := Strip(Field(row, "group_id"));
      MapOfStep(table.rows, i);
      if tvgId != [] && groupId != [] {
        mapping := mapping[tvgId := groupId];
      }
      i := i + 1;
    }
    assert table.rows[..i] == table.rows;
    return Success(mapping);
  }

  /** One more row extends the mapping by that row's contribution. */
  lemma MapOfStep(rows: seq<Row>, i: int)
    requires 0 <= i < |rows|
    ensures MapOf(rows[..i + 1]) ==
      if Qualifies(rows[i]) then MapOf(rows[..i])[KeyOf(rows[i]) := GroupOf(rows[i])] else MapOf(rows[..i])
  {
    var ps := Contributions(rows[..i + 1]);
    assert ps[..i] == Contributions(rows[..i]);
    assert ps[i] == Contribution(rows[i]);
  }

  /** A key is in the fold exactly when some pair carries it. */
  lemma {:induction false} FoldKeys(ps: seq<Option<(string, string)>>, k: string)
    ensures k in Fold(ps) <==> exists i :: 0 <= i < |ps| && ps[i].Some? && ps[i].value.0 == k
  {
    if ps != [] {
      var init := ps[..|ps| - 1];
      FoldKeys(init, k);
      if exists i :: 0 <= i < |ps| && ps[i].Some? && ps[i].value.0 == k {
        var i :| 0 <= i < |ps| && ps[i].Some? && ps[i].value.0 == k;
        if i < |init| {
          assert init[i] == ps[i];
        }
      }
      if k in Fold(init) {
        var i :| 0 <= i < |init| && init[i].Some? && init[i].value.0 == k;
        assert ps[i] == init[i];
      }
    }
  }

  /** Every entry of the fold comes from some pair. */
  lemma {:induction false} FoldFrom(ps: seq<Option<(string, string)>>, k: string)
    requires k in Fold(ps)
    ensures exists i :: 0 <= i < |ps| && ps[i] == Some((k, Fold(ps)[k]))
  {
    var init := ps[..|ps| - 1];
    if ps[|ps| - 1].Some? && ps[|ps| - 1].value.0 == k {
      assert ps[|ps| - 1] == Some((k, Fold(ps)[k]));
    } else {
      FoldFrom(init, k);
      var i :| 0 <= i < |init| && init[i] == Some((k, Fold(init)[k]));
      assert ps[i] == init[i];
    }
  }

  /** The last pair carrying a key decides its value. */
  lemma {:induction false} FoldLast(ps: seq<Option<(string, string)>>, i: int)
    requires 0 <= i < |ps| && ps[i].Some?
    requires forall j :: i < j < |ps| && ps[j].Some? ==> ps[j].value.0 != ps[i].value.0
    ensures ps[i].value.0 in Fold(ps) && Fold(ps)[ps[i].value.0] == ps[i].value.1
  {
    var init := ps[..|ps| - 1];
    if i < |ps| - 1 {
      assert init[i] == ps[i];
      forall j | i < j < |init| && init[j].Some? ensures init[j].value.0 != init[i].value.0 {
        assert init[j] == ps[j];
      }
      FoldLast(init, i);
    }
  }

  /** Every key and every group id in the mapping is trimmed and non-empty. */
  lemma MapOfTrimmed(rows: seq<Row>)
    ensures forall k :: k in MapOf(rows) ==> Trimmed(k) && Trimmed(MapOf(rows)[k])
  {
    forall k | k in MapOf(rows) ensures Trimmed(k) && Trimmed(MapOf(rows)[k]) {
      EntryTrimmed(rows, k);
    }
  }

  lemma EntryTrimmed(rows: seq<Row>, k: string)
    requires k in MapOf(rows)
    ensures Trimmed(k) && Trimmed(MapOf(rows)[k])
  {
    FoldFrom(Contributions(rows), k);
    var i :| 0 <= i < |rows| && Contributions(rows)[i] == Some((k, MapOf(rows)[k]));
    var row := rows[i];
    assert Contribution(row) == Some((k, MapOf(rows)[k]));
    StripTrimmed(Field(row, "tvg_id"));
    StripTrimmed(Field(row, "group_id"));
  }

  lemma StripTrimmed(s: string)
    requires Strip(s) != []
    ensures Trimmed(Strip(s))
  {
  }

  /** A channel id is mapped exactly when some qualifying row carries it. */
  lemma MapOfKeys(rows: seq<Row>, k: string)
    ensures k in MapOf(rows) <==> exists i :: 0 <= i < |rows| && Qualifies(rows[i]) && KeyOf(rows[i]) == k
  {
    var ps := Contributions(rows);
    FoldKeys(ps, k);
    if k in MapOf(rows) {
      var i :| 0 <= i < |ps| && ps[i].Some? && ps[i].value.0 == k;
      assert Contribution(rows[i]) == ps[i];
    }
    if exists i :: 0 <= i < |rows| && Qualifies(rows[i]) && KeyOf(rows[i]) == k {
      var i :| 0 <= i < |rows| && Qualifies(rows[i]) && KeyOf(rows[i]) == k;
      assert ps[i] == Contribution(rows[i]);
    }
  }

  /** The last qualifying row for a channel id decides its group id. */
  lemma MapOfLastWins(rows: seq<Row>, i: int)
    requires 0 <= i < |rows| && Qualifies(rows[i])
    requires forall j :: i < j < |rows| && Qualifies(rows[j]) ==> KeyOf(rows[j]) != KeyOf(rows[i])
    ensures KeyOf(rows[i]) in MapOf(rows) && MapOf(rows)[KeyOf(rows[i])] == GroupOf(rows[i])
  {
    var ps := Contributions(rows);
    assert ps[i] == Contribution(rows[i]);
    forall j | i < j < |ps| && ps[j].Some? ensures ps[j].value.0 != ps[i].value.0 {
      assert ps[j] == Contribution(rows[j]);
    }
    FoldLast(ps, i);
  }
}
