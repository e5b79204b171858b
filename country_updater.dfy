/**
  The per-row enrichment pass of `updateCountries`: every row of the jobs
  table is either marked for deletion (no city and no requirements), sent to
  the extractor and then retried (request, parse or country failure), or
  turned into a sparse update record holding only the fields that are valid
  and differ from what is stored.
 */
module CountryUpdater {
  import opened Wrappers
  import opened Text

  type RowId = nat

  /** A row of the jobs table; an absent or null column is `None`. */
  datatype Row = Row(id: RowId, city: Option<string>, requirements: Option<string>,
                     country: Option<string>, region: Option<string>, phone: Option<string>)

  /** One property of the parsed reply: absent or null, a string, or some
      other JSON value (on which `.trim()` throws). */
  datatype Field = Missing | Str(s: string) | NonString

  /** The extractor's answer for one prompt: the request failed, the reply
      content is not JSON, or the parsed object's four properties. */
  datatype Extraction =
    | RequestFailed
    | ParseFailed
    | Parsed(city: Field, country: Field, region: Field, phone: Field)

  /** The language model behind the chat-completions request, as an oracle. */
  type Extractor = string -> Extraction

  /** `updatedRow`: the id and only the fields that are to be written. */
  datatype RowUpdate = RowUpdate(id: RowId, region: Option<string>, phone: Option<string>,
                                 city: Option<string>, country: Option<string>)

  /** Where the loop puts one row. */
  datatype Outcome = Delete | Retry | Update(record: RowUpdate, cityCorrected: bool) | Unchanged

  // ---------------------------------------------------------------------
  // isValidField

  const Blacklist: seq<string> := ["null", "unknown", "not sure", "don't know", "invalid", "n/a"]

  /** Some pattern of `patterns` occurs in `s`: the alternation of the
      patterns, tried one after the other. */
  function AnyOccurs(patterns: seq<string>, s: string): bool {
    patterns != [] && (Occurs(patterns[0], s) || AnyOccurs(patterns[1..], s))
  }

  lemma {:induction false} AnyOccursMeaning(patterns: seq<string>, s: string)
    ensures AnyOccurs(patterns, s) <==> exists k, i :: 0 <= k < |patterns| && OccursAt(patterns[k], s, i)
  {
    if patterns != [] {
      AnyOccursMeaning(patterns[1..], s);
      if Occurs(patterns[0], s) {
        var i :| OccursAt(patterns[0], s, i);
      }
      assert forall k, i :: 1 <= k < |patterns| ==> (OccursAt(patterns[k], s, i) <==> OccursAt(patterns[1..][k - 1], s, i));
    }
  }

  /** The case-insensitive test of the blacklist pattern. The patterns are
      ASCII, and a case-insensitive match of an ASCII letter only accepts
      that letter in either case, so searching the lower-cased text for the
      lower-case patterns is the same test. */
  predicate Blacklisted(s: string) {
    AnyOccurs(Blacklist, Lower(s))
  }

  /** `val && !pattern.test(val)` on a string or an absent value. */
  predicate IsValidField(v: Option<string>) {
    v.Some? && v.value != "" && !Blacklisted(v.value)
  }

  /** A value is valid exactly when it is present, non-empty, and none of
      the blacklisted phrases occurs anywhere in its lower-cased text. */
  lemma IsValidFieldMeaning(v: Option<string>)
    ensures IsValidField(v) <==>
      v.Some? && v.value != "" &&
      forall p, i :: p in Blacklist ==> !OccursAt(p, Lower(v.value), i)
  {
    if v.Some? {
      var s := Lower(v.value);
      AnyOccursMeaning(Blacklist, s);
      if AnyOccurs(Blacklist, s) {
        var k, i :| 0 <= k < |Blacklist| && OccursAt(Blacklist[k], s, i);
        assert Blacklist[k] in Blacklist;
      } else {
        forall p, i | p in Blacklist ensures !OccursAt(p, s, i) {
          var k :| 0 <= k < |Blacklist| && Blacklist[k] == p;
        }
      }
    }
  }

  /** The test ignores case: a value and its lower-cased form are both valid
      or both invalid. */
  lemma IsValidFieldIgnoresCase(s: string)
    ensures IsValidField(Some(s)) <==> IsValidField(Some(Lower(s)))
  {
    LowerIdempotent(s);
  }

  // ---------------------------------------------------------------------
  // Classification of one row

  /** `v?.trim()`. */
  function TrimOpt(v: Option<string>): (r: Option<string>)
    ensures r.Some? <==> v.Some?
  {
    match v
    case None => None
    case Some(s) => Some(Trim(s))
  }

  /** A falsy string-or-undefined: absent or empty. */
  predicate Empty(v: Option<string>) {
    v.None? || v.value == ""
  }

  /** The row has neither a city nor requirements once both are trimmed. */
  predicate IsBlank(row: Row) {
    Empty(TrimOpt(row.city)) && Empty(TrimOpt(row.requirements))
  }

  /** The user message `Text: ${requirements}`, where an absent value is
      rendered as `undefined`. */
  function Prompt(row: Row): string {
    "Text: " + match TrimOpt(row.requirements) {
      case None => "undefined"
      case Some(s) => s
    }
  }

  /** `parsed?.X?.trim()` for a property that is absent or a string. */
  function FieldValue(f: Field): Option<string>
    requires !f.NonString?
  {
    match f
    case Missing => None
    case Str(s) => Some(Trim(s))
  }

  /** Some property is neither absent nor a string, so `.trim()` throws. */
  predicate HasNonString(e: Extraction)
    requires e.Parsed?
  {
    e.city.NonString? || e.country.NonString? || e.region.NonString? || e.phone.NonString?
  }

  /** The detected city replaces a non-empty stored city that differs from
      it ignoring case. */
  predicate CorrectsCity(cityField: Option<string>, detectedCity: Option<string>) {
    IsValidField(detectedCity) && !Empty(cityField) && Lower(cityField.value) != Lower(detectedCity.value)
  }

  /** The detected city is written: it is valid, and the stored city is
      empty or differs from it ignoring case. */
  predicate WritesCity(cityField: Option<string>, detectedCity: Option<string>) {
    IsValidField(detectedCity) && (Empty(cityField) || CorrectsCity(cityField, detectedCity))
  }

  /** The record for a row whose reply had a valid country. */
  function Decide(row: Row, detectedCity: Option<string>, country: string,
                  region: Option<string>, phone: Option<string>): Outcome
  {
    var cityField := TrimOpt(row.city);
    var u := RowUpdate(
      row.id,
      if IsValidField(region) && region != row.region then region else None,
      if IsValidField(phone) && phone != row.phone then phone else None,
      if WritesCity(cityField, detectedCity) then detectedCity else None,
      if Some(country) != row.country then Some(country) else None);
    if u.region.Some? || u.phone.Some? || u.city.Some? || u.country.Some? then
      Update(u, CorrectsCity(cityField, detectedCity))
    else
      Unchanged
  }

  /** The outcome of the loop body for one row, given the extractor. */
  function Classify(row: Row, extract: Extractor): Outcome {
    if IsBlank(row) then Delete
    else
      var e := extract(Prompt(row));
      if !e.Parsed? || HasNonString(e) then Retry
      else if !IsValidField(FieldValue(e.country)) then Retry
      else Decide(row, FieldValue(e.city), FieldValue(e.country).value, FieldValue(e.region), FieldValue(e.phone))
  }

  // ---------------------------------------------------------------------
  // What the loop accumulates

  function DeletedIds(rows: seq<Row>, extract: Extractor): seq<RowId> {
    if rows == [] then []
    else
      var last := rows[|rows| - 1];
      DeletedIds(rows[..|rows| - 1], extract) + if Classify(last, extract).Delete? then [last.id] else []
  }

  function RetriedRows(rows: seq<Row>, extract: Extractor): seq<Row> {
    if rows == [] then []
    else
      var last := rows[|rows| - 1];
      RetriedRows(rows[..|rows| - 1], extract) + if Classify(last, extract).Retry? then [last] else []
  }

  function UpdateRecords(rows: seq<Row>, extract: Extractor): seq<RowUpdate> {
    if rows == [] then []
    else
      var o := Classify(rows[|rows| - 1], extract);
      UpdateRecords(rows[..|rows| - 1], extract) + if o.Update? then [o.record] else []
  }

  function CorrectedCities(rows: seq<Row>, extract: Extractor): nat {
    if rows == [] then 0
    else
      var o := Classify(rows[|rows| - 1], extract);
      CorrectedCities(rows[..|rows| - 1], extract) + if o.Update? && o.cityCorrected then 1 else 0
  }

  function UnchangedCount(rows: seq<Row>, extract: Extractor): nat {
    if rows == [] then 0
    else
      UnchangedCount(rows[..|rows| - 1], extract) + if Classify(rows[|rows| - 1], extract).Unchanged? then 1 else 0
  }

  /** `updatedRow` and `changed`, built one field at a time for a row whose
      reply had a valid country; `corrected` is set where
      `correctedCityCount` is incremented. */
  method BuildUpdate(row: Row, cityField: Option<string>, detectedCity: Option<string>, country: string,
                     region: Option<string>, phoneNumber: Option<string>)
    returns (updatedRow: RowUpdate, changed: bool, corrected: bool)
    requires cityField == TrimOpt(row.city)
    ensures Decide(row, detectedCity, country, region, phoneNumber) ==
              if changed then Update(updatedRow, corrected) else Unchanged
    ensures !changed ==> !corrected
  {
    updatedRow := RowUpdate(row.id, None, None, None, None);
    changed, corrected := false, false;

    if IsValidField(region) && region != row.region {
      updatedRow := updatedRow.(region := region);
      changed := true;
    }
    if IsValidField(phoneNumber) && phoneNumber != row.phone {
      updatedRow := updatedRow.(phone := phoneNumber);
      changed := true;
    }
    if IsValidField(detectedCity) {
      if Empty(cityField) {
        updatedRow := updatedRow.(city := detectedCity);
        changed := true;
      } else if Lower(cityField.value) != Lower(detectedCity.value) {
        updatedRow := updatedRow.(city := detectedCity);
        changed := true;
        corrected := true;
      }
    }
    if Some(country) != row.country {
      updatedRow := updatedRow.(country := Some(country));
      changed := true;
    }
  }

  /** The `for (const row of rows)` loop of `updateCountries`. */
  method UpdateCountries(rows: seq<Row>, extract: Extractor)
    returns (rowsToUpdate: seq<RowUpdate>, rowsToDelete: seq<RowId>, rowsToRetry: seq<Row>,
             gptCalls: nat, correctedCityCount: nat)
    ensures rowsToDelete == DeletedIds(rows, extract)
    ensures rowsToRetry == RetriedRows(rows, extract)
    ensures rowsToUpdate == UpdateRecords(rows, extract)
    ensures correctedCityCount == CorrectedCities(rows, extract)
    ensures gptCalls + |rowsToDelete| == |rows|
  {
    rowsToUpdate, rowsToDelete, rowsToRetry := [], [], [];
    gptCalls, correctedCityCount := 0, 0;
    for n := 0 to |rows|
      invariant rowsToDelete == DeletedIds(rows[..n], extract)
      invariant rowsToRetry == RetriedRows(rows[..n], extract)
      invariant rowsToUpdate == UpdateRecords(rows[..n], extract)
      invariant correctedCityCount == CorrectedCities(rows[..n], extract)
      invariant gptCalls + |rowsToDelete| == n
    {
      var row := rows[n];
      assert rows[..n + 1][..n] == rows[..n];
      var rowId := row.id;
      var cityField := TrimOpt(row.city);
      var requirements := TrimOpt(row.requirements);

      if Empty(cityField) && Empty(requirements) {
        rowsToDelete := rowsToDelete + [rowId];
        continue;
      }

      gptCalls := gptCalls + 1;
      var reply := extract(Prompt(row));
      if !reply.Parsed? || HasNonString(reply) {
        rowsToRetry := rowsToRetry + [row];
        continue;
      }
      var detectedCity := FieldValue(reply.city);
      var country := FieldValue(reply.country);
      var region := FieldValue(reply.region);
      var phoneNumber := FieldValue(reply.phone);

      if !IsValidField(country) {
        rowsToRetry := rowsToRetry + [row];
        continue;
      }

      var updatedRow, changed, corrected := BuildUpdate(row, cityField, detectedCity, country.value, region, phoneNumber);
      assert Classify(row, extract) == if changed then Update(updatedRow, corrected) else Unchanged;
      if corrected {
        correctedCityCount := correctedCityCount + 1;
      }
      if changed {
        rowsToUpdate := rowsToUpdate + [updatedRow];
      }
    }
    assert rows[..|rows|] == rows;
  }

  // ---------------------------------------------------------------------
  // Properties of one row's outcome

  /** The four outcomes and the inputs that lead to each. */
  lemma OutcomeCases(row: Row, extract: Extractor)
    ensures Classify(row, extract).Delete? <==> IsBlank(row)
    ensures Classify(row, extract).Retry? <==>
      !IsBlank(row) &&
      var e := extract(Prompt(row));
      (!e.Parsed? || HasNonString(e) || !IsValidField(FieldValue(e.country)))
    ensures Classify(row, extract).Update? || Classify(row, extract).Unchanged? ==>
      var e := extract(Prompt(row));
      e.Parsed? && !HasNonString(e) && IsValidField(FieldValue(e.country))
  {
  }

  /** An update record carries the row's id; Region and Phone number only
      when the reply's value is valid and differs from the stored one; City
      when the reply's city is valid and the stored city is empty or differs
      ignoring case (a correction exactly in the second case); Country
      whenever it differs; and at least one of these fields. */
  lemma UpdateRecordShape(row: Row, extract: Extractor)
    requires Classify(row, extract).Update?
    ensures var e, u := extract(Prompt(row)), Classify(row, extract).record;
      && e.Parsed? && !HasNonString(e)
      && u.id == row.id
      && (u.region.Some? <==> IsValidField(FieldValue(e.region)) && FieldValue(e.region) != row.region)
      && (u.region.Some? ==> u.region == FieldValue(e.region))
      && (u.phone.Some? <==> IsValidField(FieldValue(e.phone)) && FieldValue(e.phone) != row.phone)
      && (u.phone.Some? ==> u.phone == FieldValue(e.phone))
      && (u.city.Some? <==>
            (IsValidField(FieldValue(e.city)) &&
             (Empty(TrimOpt(row.city)) || Lower(TrimOpt(row.city).value) != Lower(FieldValue(e.city).value))))
      && (u.city.Some? ==> u.city == FieldValue(e.city))
      && (Classify(row, extract).cityCorrected <==> u.city.Some? && !Empty(TrimOpt(row.city)))
      && IsValidField(FieldValue(e.country))
      && (u.country.Some? <==> FieldValue(e.country) != row.country)
      && (u.country.Some? ==> u.country == FieldValue(e.country))
      && (u.region.Some? || u.phone.Some? || u.city.Some? || u.country.Some?)
  {
  }

  /** The table row after the update record is written to it. */
  function Apply(row: Row, u: RowUpdate): Row {
    Row(row.id,
        if u.city.Some? then u.city else row.city,
        row.requirements,
        if u.country.Some? then u.country else row.country,
        if u.region.Some? then u.region else row.region,
        if u.phone.Some? then u.phone else row.phone)
  }

  /** Writing an update record and running the pass again with the same
      extractor changes nothing more: the pass converges in one step. */
  lemma UpdateConverges(row: Row, extract: Extractor)
    requires Classify(row, extract).Update?
    ensures Classify(Apply(row, Classify(row, extract).record), extract) == Unchanged
  {
    var u := Classify(row, extract).record;
    var row' := Apply(row, u);
    var e := extract(Prompt(row));
    var city, country, region, phone := FieldValue(e.city), FieldValue(e.country).value, FieldValue(e.region), FieldValue(e.phone);
    assert u == Decide(row, city, country, region, phone).record;
    assert Prompt(row') == Prompt(row);
    if u.city.Some? {
      TrimOfTrimmed(city.value);
      assert TrimOpt(row'.city) == city;
    } else {
      assert row'.city == row.city;
    }
    assert !IsBlank(row');
    assert Classify(row', extract) == Decide(row', city, country, region, phone);
    assert !WritesCity(TrimOpt(row'.city), city);
  }

  // ---------------------------------------------------------------------
  // Properties of the accumulated lists

  /** Every row ends in exactly one of the delete list, the retry list, the
      update list, or none of them because nothing changed. */
  lemma {:induction false} OutcomesPartitionRows(rows: seq<Row>, extract: Extractor)
    ensures |DeletedIds(rows, extract)| + |RetriedRows(rows, extract)| + |UpdateRecords(rows, extract)|
            + UnchangedCount(rows, extract) == |rows|
  {
    if rows != [] {
      OutcomesPartitionRows(rows[..|rows| - 1], extract);
    }
  }

  /** Only updated rows can have their city corrected. */
  lemma {:induction false} CorrectionsAtMostUpdates(rows: seq<Row>, extract: Extractor)
    ensures CorrectedCities(rows, extract) <= |UpdateRecords(rows, extract)|
  {
    if rows != [] {
      CorrectionsAtMostUpdates(rows[..|rows| - 1], extract);
    }
  }

  /** Every id marked for deletion is that of a blank row, and no blank row
      is retried or updated. */
  lemma {:induction false} DeletedRowsAreBlank(rows: seq<Row>, extract: Extractor)
    ensures forall id :: id in DeletedIds(rows, extract) ==> exists row :: row in rows && row.id == id && IsBlank(row)
    ensures forall row :: row in RetriedRows(rows, extract) ==> row in rows && !IsBlank(row)
  {
    if rows != [] {
      var prefix, last := rows[..|rows| - 1], rows[|rows| - 1];
      DeletedRowsAreBlank(prefix, extract);
      assert forall row :: row in prefix ==> row in rows;
      assert last in rows;
    }
  }

  /** Every update record names an input row, writes only valid values, and
      writes at least one field. */
  lemma {:induction false} UpdateRecordsAreSparse(rows: seq<Row>, extract: Extractor)
    ensures forall u :: u in UpdateRecords(rows, extract) ==>
      && (exists row :: row in rows && row.id == u.id && !IsBlank(row))
      && (u.region.Some? || u.phone.Some? || u.city.Some? || u.country.Some?)
      && (u.region.Some? ==> IsValidField(u.region))
      && (u.phone.Some? ==> IsValidField(u.phone))
      && (u.city.Some? ==> IsValidField(u.city))
      && (u.country.Some? ==> IsValidField(u.country))
  {
    if rows != [] {
      var prefix, last := rows[..|rows| - 1], rows[|rows| - 1];
      UpdateRecordsAreSparse(prefix, extract);
      assert forall row :: row in prefix ==> row in rows;
      assert last in rows;
    }
  }
}
