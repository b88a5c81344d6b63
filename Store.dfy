/** The record store `MiddlewareDatabase`: the `middleware_history` table as an
    in-memory, append-only sequence of rows, the row assembly of
    `save_results`, and the ordering `get_all_history` promises. */
module Store {
  import opened Wrappers
  import opened Text
  import opened JsonValue

  /** One row of `middleware_history`, column for column. `requirements` holds
      the JSON text of the parsed requirements. */
  datatype Row = Row(
    id: int,
    timestamp: string,
    inputText: string,
    requirements: string,
    initialCode: string,
    initialDocumentation: string,
    validation: string,
    improvedCode: string,
    improvedDocumentation: string)

  /** The `initial_result` dictionary: each key `save_results` reads, `None`
      when the key is absent. */
  datatype InitialResult = InitialResult(
    inputText: Option<string>,
    requirements: Option<Json>,
    code: Option<string>,
    documentation: Option<string>,
    validation: Option<string>)

  /** The `improved_result` dictionary. An empty dictionary is falsy in Python,
      but it yields the same row as a missing one, so both are `None` or
      `Some(ImprovedResult(None, None))` to the same effect. */
  datatype ImprovedResult = ImprovedResult(
    improvedCode: Option<string>,
    improvedDocumentation: Option<string>)

  /** The row `save_results` inserts, given the id the table assigns, the
      current time in ISO-8601 form and `json.dumps`. */
  function BuildRow(id: int, now: string, initial: InitialResult,
                    improved: Option<ImprovedResult>, encode: Json -> string): Row
  {
    Row(
      id,
      now,
      initial.inputText.GetOr(""),
      encode(initial.requirements.GetOr(EmptyObject)),
      initial.code.GetOr(""),
      initial.documentation.GetOr(""),
      initial.validation.GetOr(""),
      if improved.Some? then improved.value.improvedCode.GetOr("") else "",
      if improved.Some? then improved.value.improvedDocumentation.GetOr("") else "")
  }

  /** Newest first: every row's timestamp is `>=` that of every later row. */
  predicate NewestFirst(h: seq<Row>)
  {
    forall i, j :: 0 <= i < j < |h| ==> LexLe(h[j].timestamp, h[i].timestamp)
  }

  /** `h` is an answer `get_all_history` may give for the table `rows`: all
      rows, each once, sorted by `ORDER BY timestamp DESC` (rows with equal
      timestamps in any order). */
  ghost predicate IsHistoryOrder(h: seq<Row>, rows: seq<Row>)
  {
    multiset(h) == multiset(rows) && NewestFirst(h)
  }

  // ---------------------------------------------------------------------
  // Lemmas about the row `save_results` builds

  /** Each column of the row is the value the caller passed, or the default
      when the key was missing: `''` for text, `{}` for the requirements; the
      improved columns come from the improved result, and are both `''`
      without one. */
  lemma BuildRowDefaults(id: int, now: string, initial: InitialResult,
                         improved: Option<ImprovedResult>, encode: Json -> string)
    ensures var row := BuildRow(id, now, initial, improved, encode);
      && row.id == id && row.timestamp == now
      && (initial.inputText.Some? ==> row.inputText == initial.inputText.value)
      && (initial.inputText.None? ==> row.inputText == "")
      && (initial.requirements.Some? ==> row.requirements == encode(initial.requirements.value))
      && (initial.requirements.None? ==> row.requirements == encode(EmptyObject))
      && (initial.code.Some? ==> row.initialCode == initial.code.value)
      && (initial.code.None? ==> row.initialCode == "")
      && (initial.documentation.Some? ==> row.initialDocumentation == initial.documentation.value)
      && (initial.documentation.None? ==> row.initialDocumentation == "")
      && (initial.validation.Some? ==> row.validation == initial.validation.value)
      && (initial.validation.None? ==> row.validation == "")
      && (improved.Some? ==>
            && row.improvedCode == improved.value.improvedCode.GetOr("")
            && row.improvedDocumentation == improved.value.improvedDocumentation.GetOr(""))
      && (improved.None? ==> row.improvedCode == "" && row.improvedDocumentation == "")
  {
  }

  /** With a JSON codec that round-trips, the stored requirements column
      decodes to exactly the requirements passed in, or to `{}` when none were. */
  lemma StoredRequirementsRoundTrip(id: int, now: string, initial: InitialResult,
                                    improved: Option<ImprovedResult>,
                                    encode: Json -> string, decode: string -> Option<Json>)
    requires RoundTrips(encode, decode)
    ensures var row := BuildRow(id, now, initial, improved, encode);
      && (initial.requirements.Some? ==> decode(row.requirements) == Some(initial.requirements.value))
      && (initial.requirements.None? ==> decode(row.requirements) == Some(EmptyObject))
  {
  }

  /** A case saved with a timestamp later than every earlier row's is the
      first row of every newest-first history. */
  lemma {:induction false} LatestSavedComesFirst(rows: seq<Row>, saved: Row, h: seq<Row>)
    requires forall k :: 0 <= k < |rows| ==>
      LexLe(rows[k].timestamp, saved.timestamp) && rows[k].timestamp != saved.timestamp
    requires IsHistoryOrder(h, rows + [saved])
    ensures h != [] && h[0] == saved
  {
    assert saved in multiset(rows + [saved]);
    assert saved in multiset(h);
    var j :| 0 <= j < |h| && h[j] == saved;
    if j != 0 && h[0] != saved {
      assert LexLe(saved.timestamp, h[0].timestamp);
      assert h[0] in multiset(rows + [saved]);
      assert h[0] in rows + [saved];
      var k :| 0 <= k < |rows| && rows[k] == h[0];
      LexLeAntisymmetric(saved.timestamp, h[0].timestamp);
      assert false;
    }
  }

  // ---------------------------------------------------------------------
  // The table

  /** `MiddlewareDatabase`: the rows of `middleware_history` in insertion
      order and the next id `AUTOINCREMENT` hands out. */
  class MiddlewareDatabase {
    var rows: seq<Row>
    var nextId: int

    /** Ids start at 1, strictly increase in insertion order and stay below
        the next id to be assigned. */
    ghost predicate Valid()
      reads this
    {
      && 1 <= nextId
      && (forall i :: 0 <= i < |rows| ==> 1 <= rows[i].id < nextId)
      && (forall i, j :: 0 <= i < j < |rows| ==> rows[i].id < rows[j].id)
    }

    /** A freshly created, empty table. */
    constructor ()
      ensures Valid() && rows == [] && nextId == 1
    {
      rows := [];
      nextId := 1;
    }

    /** `save_results`: inserts exactly one row, with the next id, and leaves
        every existing row as it was. */
    method SaveResults(initial: InitialResult, improved: Option<ImprovedResult>,
                       now: string, encode: Json -> string)
      requires Valid()
      modifies this
      ensures Valid()
      ensures rows == old(rows) + [BuildRow(old(nextId), now, initial, improved, encode)]
      ensures nextId == old(nextId) + 1
    {
      var row := BuildRow(nextId, now, initial, improved, encode);
      rows := rows + [row];
      nextId := nextId + 1;
    }
  }
}
