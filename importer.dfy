/**
 * The quotes importer (`json2db` in json2db.py): every record of the parsed
 * JSON object becomes one row of the `quotes` table, and every interpretation
 * string of that record one row of the `interpretations` table that refers to
 * the quote row just inserted. The SQLite store is modelled as two in-memory
 * tables with AUTOINCREMENT counters; the single commit at the end makes a run
 * all-or-nothing.
 */
module Importer {
  import opened Wrappers

  /** One value of the parsed JSON object; `None` stands for an absent key. */
  datatype Record = Record(text: Option<string>, author: Option<string>, interpretations: Option<seq<string>>)

  /** A row of `quotes(id, text, author)`. */
  datatype QuoteRow = QuoteRow(id: int, text: string, author: string)

  /** A row of `interpretations(id, quote_id, interpretation)`. */
  datatype InterpretationRow = InterpretationRow(id: int, quoteId: int, interpretation: string)

  /** The `KeyError` raised by `content['text']` or `content['author']`. */
  datatype ImportError = MissingKey(key: string)

  predicate WellFormed(r: Record) {
    r.text.Some? && r.author.Some?
  }

  predicate AllWellFormed(records: seq<Record>) {
    forall k :: 0 <= k < |records| ==> WellFormed(records[k])
  }

  /** Record `k` is the first one without `text` or `author`. */
  predicate StoppedAt(records: seq<Record>, k: int) {
    0 <= k < |records| && AllWellFormed(records[..k]) && !WellFormed(records[k])
  }

  /** The key error a record raises; `text` is looked up before `author`. */
  function RecordError(r: Record): (e: Option<ImportError>)
    ensures e.None? <==> WellFormed(r)
    ensures e.Some? ==> (e.value == MissingKey("text") <==> r.text.None?)
    ensures e.Some? ==> (e.value == MissingKey("author") <==> r.text.Some? && r.author.None?)
  {
    if r.text.None? then Some(MissingKey("text"))
    else if r.author.None? then Some(MissingKey("author"))
    else None
  }

  /** The error of the first record that lacks a required key, if any. */
  function FirstError(records: seq<Record>): (e: Option<ImportError>)
    ensures e.None? <==> AllWellFormed(records)
    ensures e.Some? ==> e.value == MissingKey("text") || e.value == MissingKey("author")
  {
    if records == [] then None
    else if !WellFormed(records[0]) then RecordError(records[0])
    else FirstError(records[1..])
  }

  /** `content.get('interpretations', [])`. */
  function Interpretations(r: Record): seq<string> {
    r.interpretations.GetOr([])
  }

  /** The number of interpretation strings across all records. */
  function TotalInterpretations(records: seq<Record>): nat
    decreases |records|
  {
    if records == [] then 0
    else
      var n := |records| - 1;
      TotalInterpretations(records[..n]) + |Interpretations(records[n])|
  }

  /** The quote rows an import appends: one per record, in order, with consecutive ids from `first`. */
  function QuoteRows(records: seq<Record>, first: int): (rows: seq<QuoteRow>)
    requires AllWellFormed(records)
    ensures |rows| == |records|
    decreases |records|
  {
    if records == [] then []
    else
      var n := |records| - 1;
      QuoteRows(records[..n], first) + [QuoteRow(first + n, records[n].text.value, records[n].author.value)]
  }

  /** Row `k` of an import is record `k`'s quote, with id `first + k`. */
  lemma {:induction false} QuoteRowsShape(records: seq<Record>, first: int)
    requires AllWellFormed(records)
    ensures forall k :: 0 <= k < |records| ==>
      QuoteRows(records, first)[k] == QuoteRow(first + k, records[k].text.value, records[k].author.value)
    decreases |records|
  {
    if records != [] {
      var n := |records| - 1;
      assert forall k :: 0 <= k < n ==> records[..n][k] == records[k];
      QuoteRowsShape(records[..n], first);
    }
  }

  /** The interpretation rows for one quote: one per string, in list order, with consecutive ids. */
  function RowsForQuote(texts: seq<string>, quoteId: int, first: int): (rows: seq<InterpretationRow>)
    ensures |rows| == |texts|
  {
    seq(|texts|, m requires 0 <= m < |texts| => InterpretationRow(first + m, quoteId, texts[m]))
  }

  /**
   * The interpretation rows an import appends: the rows of record `k` refer to
   * quote id `firstQuote + k`, and interpretation ids run on from `firstId`.
   */
  function InterpretationRows(records: seq<Record>, firstQuote: int, firstId: int): (rows: seq<InterpretationRow>)
    ensures |rows| == TotalInterpretations(records)
    decreases |records|
  {
    if records == [] then []
    else
      var n := |records| - 1;
      InterpretationRows(records[..n], firstQuote, firstId)
        + RowsForQuote(Interpretations(records[n]), firstQuote + n, firstId + TotalInterpretations(records[..n]))
  }

  /** Interpretation ids run on consecutively from `firstId`, and every row refers to one of this import's quotes. */
  lemma {:induction false} InterpretationRowsShape(records: seq<Record>, firstQuote: int, firstId: int)
    ensures forall t :: 0 <= t < TotalInterpretations(records) ==>
      && InterpretationRows(records, firstQuote, firstId)[t].id == firstId + t
      && firstQuote <= InterpretationRows(records, firstQuote, firstId)[t].quoteId < firstQuote + |records|
    decreases |records|
  {
    if records != [] {
      var n := |records| - 1;
      var front := InterpretationRows(records[..n], firstQuote, firstId);
      var last := RowsForQuote(Interpretations(records[n]), firstQuote + n, firstId + TotalInterpretations(records[..n]));
      InterpretationRowsLast(records, firstQuote, firstId);
      InterpretationRowsShape(records[..n], firstQuote, firstId);
      var rows := front + last;
      forall t | 0 <= t < |rows|
        ensures rows[t].id == firstId + t && firstQuote <= rows[t].quoteId < firstQuote + |records|
      {
        if t >= |front| {
          assert rows[t] == last[t - |front|];
        }
      }
    }
  }

  lemma InterpretationRowsLast(records: seq<Record>, firstQuote: int, firstId: int)
    requires records != []
    ensures var n := |records| - 1;
      InterpretationRows(records, firstQuote, firstId)
        == InterpretationRows(records[..n], firstQuote, firstId)
           + RowsForQuote(Interpretations(records[n]), firstQuote + n, firstId + TotalInterpretations(records[..n]))
  {
  }

  /** The interpretation texts stored for quote `quoteId`, in table order. */
  function TextsFor(rows: seq<InterpretationRow>, quoteId: int): seq<string>
    decreases |rows|
  {
    if rows == [] then []
    else
      var n := |rows| - 1;
      TextsFor(rows[..n], quoteId) + (if rows[n].quoteId == quoteId then [rows[n].interpretation] else [])
  }

  predicate HasQuote(quotes: seq<QuoteRow>, id: int) {
    exists a :: 0 <= a < |quotes| && quotes[a].id == id
  }

  /** Quote ids are positive, strictly increasing, and below the next AUTOINCREMENT value. */
  predicate QuoteIdsFresh(quotes: seq<QuoteRow>, nextQuoteId: int) {
    && (forall a, b :: 0 <= a < b < |quotes| ==> quotes[a].id < quotes[b].id)
    && (forall a :: 0 <= a < |quotes| ==> 1 <= quotes[a].id < nextQuoteId)
    && 1 <= nextQuoteId
  }

  /** Interpretation ids are positive, strictly increasing, and below the next AUTOINCREMENT value. */
  predicate InterpretationIdsFresh(interpretations: seq<InterpretationRow>, nextInterpretationId: int) {
    && (forall a, b :: 0 <= a < b < |interpretations| ==> interpretations[a].id < interpretations[b].id)
    && (forall a :: 0 <= a < |interpretations| ==> 1 <= interpretations[a].id < nextInterpretationId)
    && 1 <= nextInterpretationId
  }

  /** Every interpretation refers to a stored quote. */
  predicate ReferencesResolve(quotes: seq<QuoteRow>, interpretations: seq<InterpretationRow>) {
    forall a :: 0 <= a < |interpretations| ==> HasQuote(quotes, interpretations[a].quoteId)
  }

  /** The tables as the importer keeps them. */
  predicate Consistent(quotes: seq<QuoteRow>, interpretations: seq<InterpretationRow>, nextQuoteId: int, nextInterpretationId: int) {
    && QuoteIdsFresh(quotes, nextQuoteId)
    && InterpretationIdsFresh(interpretations, nextInterpretationId)
    && ReferencesResolve(quotes, interpretations)
  }

  /** A record that is not well formed stops the import with its own error when all before it are well formed. */
  lemma {:induction false} FirstErrorAt(records: seq<Record>, k: nat)
    requires k < |records| && AllWellFormed(records[..k]) && !WellFormed(records[k])
    ensures FirstError(records) == RecordError(records[k])
    decreases k
  {
    if k > 0 {
      assert records[..k][0] == records[0];
      assert records[1..][..k - 1] == records[..k][1..];
      FirstErrorAt(records[1..], k - 1);
    }
  }

  lemma {:induction false} TextsForAppend(a: seq<InterpretationRow>, b: seq<InterpretationRow>, quoteId: int)
    ensures TextsFor(a + b, quoteId) == TextsFor(a, quoteId) + TextsFor(b, quoteId)
    decreases |b|
  {
    if b == [] {
      assert a + b == a;
    } else {
      var n := |b| - 1;
      assert (a + b)[..|a| + n] == a + b[..n];
      TextsForAppend(a, b[..n], quoteId);
    }
  }

  lemma {:induction false} TextsForNone(rows: seq<InterpretationRow>, quoteId: int)
    requires forall t :: 0 <= t < |rows| ==> rows[t].quoteId != quoteId
    ensures TextsFor(rows, quoteId) == []
    decreases |rows|
  {
    if rows != [] {
      TextsForNone(rows[..|rows| - 1], quoteId);
    }
  }

  lemma {:induction false} TextsForOneQuote(texts: seq<string>, quoteId: int, first: int)
    ensures TextsFor(RowsForQuote(texts, quoteId, first), quoteId) == texts
    decreases |texts|
  {
    if texts != [] {
      var n := |texts| - 1;
      assert RowsForQuote(texts, quoteId, first)[..n] == RowsForQuote(texts[..n], quoteId, first);
      TextsForOneQuote(texts[..n], quoteId, first);
      assert texts[..n] + [texts[n]] == texts;
    }
  }

  lemma TextsForOtherQuote(texts: seq<string>, quoteId: int, first: int, other: int)
    requires other != quoteId
    ensures TextsFor(RowsForQuote(texts, quoteId, first), other) == []
  {
    TextsForNone(RowsForQuote(texts, quoteId, first), other);
  }

  /** Rows that refer to other quotes, followed by `last`, store for `quoteId` what `last` stores. */
  lemma TextsForAfterOthers(rows: seq<InterpretationRow>, front: seq<InterpretationRow>, last: seq<InterpretationRow>, quoteId: int)
    requires rows == front + last
    requires forall t :: 0 <= t < |front| ==> front[t].quoteId != quoteId
    ensures TextsFor(rows, quoteId) == TextsFor(last, quoteId)
  {
    TextsForAppend(front, last, quoteId);
    TextsForNone(front, quoteId);
  }

  /** Rows followed by rows that refer to another quote store for `quoteId` what the first rows store. */
  lemma TextsForBeforeOther(rows: seq<InterpretationRow>, front: seq<InterpretationRow>,
                            texts: seq<string>, other: int, first: int, quoteId: int)
    requires rows == front + RowsForQuote(texts, other, first)
    requires other != quoteId
    ensures TextsFor(rows, quoteId) == TextsFor(front, quoteId)
  {
    TextsForAppend(front, RowsForQuote(texts, other, first), quoteId);
    TextsForOtherQuote(texts, other, first, quoteId);
  }

  /** No interpretation row of an import refers to a quote id from `quoteId` on, past the import's own quotes. */
  lemma InterpretationRowsBelow(records: seq<Record>, firstQuote: int, firstId: int, quoteId: int)
    requires firstQuote + |records| <= quoteId
    ensures forall t :: 0 <= t < |InterpretationRows(records, firstQuote, firstId)| ==>
      InterpretationRows(records, firstQuote, firstId)[t].quoteId != quoteId
  {
    InterpretationRowsShape(records, firstQuote, firstId);
  }

  /** The last record's interpretations are exactly the texts stored for its quote. */
  lemma LastRecordTexts(records: seq<Record>, firstQuote: int, firstId: int, n: nat)
    requires n == |records| - 1
    ensures TextsFor(InterpretationRows(records, firstQuote, firstId), firstQuote + n) == Interpretations(records[n])
  {
    var texts, firstOfLast := Interpretations(records[n]), firstId + TotalInterpretations(records[..n]);
    var front := InterpretationRows(records[..n], firstQuote, firstId);
    InterpretationRowsLast(records, firstQuote, firstId);
    InterpretationRowsBelow(records[..n], firstQuote, firstId, firstQuote + n);
    TextsForAfterOthers(InterpretationRows(records, firstQuote, firstId), front,
                        RowsForQuote(texts, firstQuote + n, firstOfLast), firstQuote + n);
    TextsForOneQuote(texts, firstQuote + n, firstOfLast);
  }

  /** The last record adds nothing to the texts stored for an earlier record's quote. */
  lemma EarlierRecordTexts(records: seq<Record>, firstQuote: int, firstId: int, n: nat, k: nat)
    requires n == |records| - 1 && k < n
    ensures TextsFor(InterpretationRows(records, firstQuote, firstId), firstQuote + k)
         == TextsFor(InterpretationRows(records[..n], firstQuote, firstId), firstQuote + k)
  {
    InterpretationRowsLast(records, firstQuote, firstId);
    TextsForBeforeOther(InterpretationRows(records, firstQuote, firstId), InterpretationRows(records[..n], firstQuote, firstId),
                        Interpretations(records[n]), firstQuote + n, firstId + TotalInterpretations(records[..n]), firstQuote + k);
  }

  /**
   * Referential integrity, exactly: the interpretations stored for the quote of
   * record `k` are that record's interpretation strings, one row each, in list
   * order (none for a record without the key).
   */
  lemma {:induction false} InterpretationsOfRecord(records: seq<Record>, firstQuote: int, firstId: int, k: nat)
    requires k < |records|
    ensures TextsFor(InterpretationRows(records, firstQuote, firstId), firstQuote + k) == Interpretations(records[k])
    decreases |records|
  {
    var n := |records| - 1;
    if k == n {
      LastRecordTexts(records, firstQuote, firstId, n);
    } else {
      EarlierRecordTexts(records, firstQuote, firstId, n, k);
      InterpretationsOfRecord(records[..n], firstQuote, firstId, k);
      assert records[..n][k] == records[k];
    }
  }

  lemma HasQuoteAppend(quotes: seq<QuoteRow>, more: seq<QuoteRow>, id: int)
    requires HasQuote(quotes, id)
    ensures HasQuote(quotes + more, id)
  {
    var w :| 0 <= w < |quotes| && quotes[w].id == id;
    assert (quotes + more)[w] == quotes[w];
  }

  lemma HasImportedQuote(quotes: seq<QuoteRow>, records: seq<Record>, first: int, k: int)
    requires AllWellFormed(records) && 0 <= k < |records|
    ensures HasQuote(quotes + QuoteRows(records, first), first + k)
  {
    QuoteRowsShape(records, first);
    assert (quotes + QuoteRows(records, first))[|quotes| + k] == QuoteRows(records, first)[k];
  }

  lemma QuoteIdsAppend(quotes: seq<QuoteRow>, nextQuoteId: int, records: seq<Record>)
    requires QuoteIdsFresh(quotes, nextQuoteId) && AllWellFormed(records)
    ensures QuoteIdsFresh(quotes + QuoteRows(records, nextQuoteId), nextQuoteId + |records|)
  {
    var added := QuoteRows(records, nextQuoteId);
    QuoteRowsShape(records, nextQuoteId);
    var qs := quotes + added;
    forall a | 0 <= a < |qs|
      ensures qs[a].id == if a < |quotes| then quotes[a].id else nextQuoteId + (a - |quotes|)
    {
      if a >= |quotes| {
        assert qs[a] == added[a - |quotes|];
      }
    }
  }

  lemma InterpretationIdsAppend(interpretations: seq<InterpretationRow>, nextInterpretationId: int,
                                records: seq<Record>, firstQuote: int)
    requires InterpretationIdsFresh(interpretations, nextInterpretationId)
    ensures InterpretationIdsFresh(interpretations + InterpretationRows(records, firstQuote, nextInterpretationId),
                                   nextInterpretationId + TotalInterpretations(records))
  {
    var added := InterpretationRows(records, firstQuote, nextInterpretationId);
    InterpretationRowsShape(records, firstQuote, nextInterpretationId);
    var rs := interpretations + added;
    forall a | 0 <= a < |rs|
      ensures rs[a].id == if a < |interpretations| then interpretations[a].id else nextInterpretationId + (a - |interpretations|)
    {
      if a >= |interpretations| {
        assert rs[a] == added[a - |interpretations|];
      }
    }
  }

  lemma ReferencesAppend(quotes: seq<QuoteRow>, interpretations: seq<InterpretationRow>,
                         nextQuoteId: int, nextInterpretationId: int, records: seq<Record>)
    requires ReferencesResolve(quotes, interpretations) && AllWellFormed(records)
    ensures ReferencesResolve(quotes + QuoteRows(records, nextQuoteId),
                              interpretations + InterpretationRows(records, nextQuoteId, nextInterpretationId))
  {
    var newQuotes := QuoteRows(records, nextQuoteId);
    var newInterpretations := InterpretationRows(records, nextQuoteId, nextInterpretationId);
    InterpretationRowsShape(records, nextQuoteId, nextInterpretationId);
    var qs := quotes + newQuotes;
    var rs := interpretations + newInterpretations;
    forall a | 0 <= a < |rs|
      ensures HasQuote(qs, rs[a].quoteId)
    {
      if a < |interpretations| {
        assert rs[a] == interpretations[a];
        HasQuoteAppend(quotes, newQuotes, interpretations[a].quoteId);
      } else {
        var row := newInterpretations[a - |interpretations|];
        assert rs[a] == row;
        HasImportedQuote(quotes, records, nextQuoteId, row.quoteId - nextQuoteId);
      }
    }
  }

  /** Appending an import's rows keeps the tables consistent: fresh increasing ids, every reference resolved. */
  lemma ImportKeepsConsistent(quotes: seq<QuoteRow>, interpretations: seq<InterpretationRow>,
                              nextQuoteId: int, nextInterpretationId: int, records: seq<Record>)
    requires Consistent(quotes, interpretations, nextQuoteId, nextInterpretationId)
    requires AllWellFormed(records)
    ensures Consistent(quotes + QuoteRows(records, nextQuoteId),
                       interpretations + InterpretationRows(records, nextQuoteId, nextInterpretationId),
                       nextQuoteId + |records|,
                       nextInterpretationId + TotalInterpretations(records))
  {
    QuoteIdsAppend(quotes, nextQuoteId, records);
    InterpretationIdsAppend(interpretations, nextInterpretationId, records, nextQuoteId);
    ReferencesAppend(quotes, interpretations, nextQuoteId, nextInterpretationId, records);
  }

  /** One more record: the tables grow by that record's quote row and its interpretation rows. */
  lemma ImportStep(quotes: seq<QuoteRow>, interpretations: seq<InterpretationRow>,
                   records: seq<Record>, k: nat, firstQuote: int, firstId: int)
    requires k < |records| && AllWellFormed(records[..k]) && WellFormed(records[k])
    ensures AllWellFormed(records[..k + 1])
    ensures quotes + QuoteRows(records[..k + 1], firstQuote)
         == quotes + QuoteRows(records[..k], firstQuote) + [QuoteRow(firstQuote + k, records[k].text.value, records[k].author.value)]
    ensures interpretations + InterpretationRows(records[..k + 1], firstQuote, firstId)
         == interpretations + InterpretationRows(records[..k], firstQuote, firstId)
            + RowsForQuote(Interpretations(records[k]), firstQuote + k, firstId + TotalInterpretations(records[..k]))
    ensures TotalInterpretations(records[..k + 1]) == TotalInterpretations(records[..k]) + |Interpretations(records[k])|
  {
    var prefix := records[..k + 1];
    assert prefix[..k] == records[..k];
    assert prefix[k] == records[k];
    assert forall i :: 0 <= i < k ==> prefix[i] == records[..k][i];
  }

  /**
   * The SQLite store: the two tables, their AUTOINCREMENT counters, and whether
   * the tables have been created yet.
   */
  class Store {
    var hasTables: bool
    var quotes: seq<QuoteRow>
    var interpretations: seq<InterpretationRow>
    var nextQuoteId: int
    var nextInterpretationId: int

    ghost predicate Valid()
      reads this
    {
      && (!hasTables ==> quotes == [] && interpretations == [] && nextQuoteId == 1 && nextInterpretationId == 1)
      && Consistent(quotes, interpretations, nextQuoteId, nextInterpretationId)
    }

    /** A new, empty database file. */
    constructor ()
      ensures Valid() && !hasTables
    {
      hasTables := false;
      quotes, interpretations := [], [];
      nextQuoteId, nextInterpretationId := 1, 1;
    }

    /** `CREATE TABLE IF NOT EXISTS` for both tables: existing rows and counters are untouched. */
    method CreateTables()
      requires Valid()
      modifies this
      ensures Valid() && hasTables
      ensures quotes == old(quotes) && interpretations == old(interpretations)
      ensures nextQuoteId == old(nextQuoteId) && nextInterpretationId == old(nextInterpretationId)
    {
      if !hasTables {
        hasTables := true;
      }
    }

    /** `INSERT INTO quotes` followed by `cursor.lastrowid`. */
    method InsertQuote(text: string, author: string) returns (id: int)
      modifies this
      ensures id == old(nextQuoteId) && nextQuoteId == id + 1
      ensures quotes == old(quotes) + [QuoteRow(id, text, author)]
      ensures interpretations == old(interpretations) && nextInterpretationId == old(nextInterpretationId)
      ensures hasTables == old(hasTables)
    {
      id := nextQuoteId;
      quotes := quotes + [QuoteRow(id, text, author)];
      nextQuoteId := nextQuoteId + 1;
    }

    /** `INSERT INTO interpretations`. */
    method InsertInterpretation(quoteId: int, text: string)
      modifies this
      ensures interpretations == old(interpretations) + [InterpretationRow(old(nextInterpretationId), quoteId, text)]
      ensures nextInterpretationId == old(nextInterpretationId) + 1
      ensures quotes == old(quotes) && nextQuoteId == old(nextQuoteId) && hasTables == old(hasTables)
    {
      interpretations := interpretations + [InterpretationRow(nextInterpretationId, quoteId, text)];
      nextInterpretationId := nextInterpretationId + 1;
    }

    /** The inner loop of `json2db`: one `INSERT INTO interpretations` per string, in list order. */
    method InsertInterpretations(quoteId: int, texts: seq<string>)
      modifies this
      ensures interpretations == old(interpretations) + RowsForQuote(texts, quoteId, old(nextInterpretationId))
      ensures nextInterpretationId == old(nextInterpretationId) + |texts|
      ensures quotes == old(quotes) && nextQuoteId == old(nextQuoteId) && hasTables == old(hasTables)
    {
      var m := 0;
      while m < |texts|
        invariant 0 <= m <= |texts|
        invariant interpretations == old(interpretations) + RowsForQuote(texts[..m], quoteId, old(nextInterpretationId))
        invariant nextInterpretationId == old(nextInterpretationId) + m
        invariant quotes == old(quotes) && nextQuoteId == old(nextQuoteId) && hasTables == old(hasTables)
      {
        assert RowsForQuote(texts[..m + 1], quoteId, old(nextInterpretationId))
            == RowsForQuote(texts[..m], quoteId, old(nextInterpretationId)) + [InterpretationRow(nextInterpretationId, quoteId, texts[m])];
        InsertInterpretation(quoteId, texts[m]);
        m := m + 1;
      }
      assert texts[..m] == texts;
    }

    /**
     * The insert loop of `json2db`, inside the open transaction: one quote row
     * per record, then that record's interpretation rows. It stops at the first
     * record without `text` or `author`, leaving the rows inserted so far
     * uncommitted.
     */
    method InsertRecords(records: seq<Record>) returns (outcome: Outcome<ImportError>)
      modifies this
      ensures hasTables == old(hasTables)
      ensures outcome == if FirstError(records).Some? then Fail(FirstError(records).value) else Pass
      ensures outcome.Pass? ==>
        && AllWellFormed(records)
        && quotes == old(quotes) + QuoteRows(records, old(nextQuoteId))
        && nextQuoteId == old(nextQuoteId) + |records|
      ensures outcome.Pass? ==>
        && interpretations == old(interpretations)
                              + InterpretationRows(records, old(nextQuoteId), old(nextInterpretationId))
        && nextInterpretationId == old(nextInterpretationId) + TotalInterpretations(records)
      ensures outcome.Fail? ==> exists k ::
        && StoppedAt(records, k)
        && quotes == old(quotes) + QuoteRows(records[..k], old(nextQuoteId))
        && nextQuoteId == old(nextQuoteId) + k
        && interpretations == old(interpretations)
                              + InterpretationRows(records[..k], old(nextQuoteId), old(nextInterpretationId))
        && nextInterpretationId == old(nextInterpretationId) + TotalInterpretations(records[..k])
    {
      ghost var quotes0, interpretations0 := quotes, interpretations;
      ghost var firstQuote, firstInterpretation := nextQuoteId, nextInterpretationId;
      var k := 0;
      while k < |records|
        invariant 0 <= k <= |records|
        invariant hasTables == old(hasTables)
        invariant AllWellFormed(records[..k])
        invariant quotes == quotes0 + QuoteRows(records[..k], firstQuote)
        invariant nextQuoteId == firstQuote + k
        invariant interpretations == interpretations0 + InterpretationRows(records[..k], firstQuote, firstInterpretation)
        invariant nextInterpretationId == firstInterpretation + TotalInterpretations(records[..k])
      {
        var record := records[k];
        if record.text.None? || record.author.None? {
          FirstErrorAt(records, k);
          assert StoppedAt(records, k);
          return Fail(RecordError(record).value);
        }
        ImportStep(quotes0, interpretations0, records, k, firstQuote, firstInterpretation);
        var quoteId := InsertQuote(record.text.value, record.author.value);
        InsertInterpretations(quoteId, Interpretations(record));
        k := k + 1;
      }
      assert records[..k] == records;
      return Pass;
    }

    /**
     * `json2db` after the JSON document is loaded: create the tables if absent,
     * insert the records, and commit. A record without `text` or `author`
     * raises before the commit, so the run's rows are discarded; the tables,
     * created outside the transaction, stay.
     */
    method Import(records: seq<Record>) returns (outcome: Outcome<ImportError>)
      requires Valid()
      modifies this
      ensures Valid() && hasTables
      ensures outcome == if FirstError(records).Some? then Fail(FirstError(records).value) else Pass
      ensures outcome.Pass? ==>
        && quotes == old(quotes) + QuoteRows(records, old(nextQuoteId))
        && nextQuoteId == old(nextQuoteId) + |records|
      ensures outcome.Pass? ==>
        && interpretations == old(interpretations)
                              + InterpretationRows(records, old(nextQuoteId), old(nextInterpretationId))
        && nextInterpretationId == old(nextInterpretationId) + TotalInterpretations(records)
      ensures outcome.Fail? ==> quotes == old(quotes) && interpretations == old(interpretations)
      ensures outcome.Fail? ==>
        nextQuoteId == old(nextQuoteId) && nextInterpretationId == old(nextInterpretationId)
    {
      CreateTables();
      var savedQuotes, savedInterpretations := quotes, interpretations;
      var firstQuote, firstInterpretation := nextQuoteId, nextInterpretationId;
      outcome := InsertRecords(records);
      if outcome.Fail? {
        // no commit: the rows of this run are rolled back
        quotes, interpretations := savedQuotes, savedInterpretations;
        nextQuoteId, nextInterpretationId := firstQuote, firstInterpretation;
      } else {
        ImportKeepsConsistent(savedQuotes, savedInterpretations, firstQuote, firstInterpretation, records);
      }
    }
  }

  /** Re-running the import on a populated store appends every record again, with new ids. */
  method ImportTwice(store: Store, records: seq<Record>)
    requires store.Valid() && AllWellFormed(records)
    modifies store
    ensures store.Valid()
    ensures store.quotes == old(store.quotes)
                          + QuoteRows(records, old(store.nextQuoteId))
                          + QuoteRows(records, old(store.nextQuoteId) + |records|)
    ensures store.interpretations == old(store.interpretations)
                                   + InterpretationRows(records, old(store.nextQuoteId), old(store.nextInterpretationId))
                                   + InterpretationRows(records, old(store.nextQuoteId) + |records|,
                                                        old(store.nextInterpretationId) + TotalInterpretations(records))
  {
    var first := store.Import(records);
    var second := store.Import(records);
  }

  /** The one-record example on a new database: the quote gets id 1 and its interpretation refers to it. */
  method ImportExample() returns (quotes: seq<QuoteRow>, interpretations: seq<InterpretationRow>)
    ensures quotes == [QuoteRow(1, "Control your mind", "Epictetus")]
    ensures interpretations == [InterpretationRow(1, 1, "Focus inward.")]
  {
    var store := new Store();
    var record := Record(Some("Control your mind"), Some("Epictetus"), Some(["Focus inward."]));
    var outcome := store.Import([record]);
    assert outcome == Pass;
    quotes, interpretations := store.quotes, store.interpretations;
  }
}
