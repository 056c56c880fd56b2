/** The `news` table and the ingestion handler `POST /api/news/raw`
    (server.js:65-104). The table is a map from topic hash to row: the
    `UNIQUE` constraint on `topic_hash` (server.js:25) is what makes it a map,
    and `Valid` states that every row sits under its own hash. The clock reading
    `Date.now()` is the parameter `now`, and the SHA-1 digest `makeTopicHash`
    (server.js:45-47) is the parameter `hash`: any deterministic function from
    canonical titles to keys. */
module Store {
  import opened Optional
  import opened Canonicalizer
  import opened Scorer

  /** A topic hash (the hex digest of a canonical title). */
  type Key = string

  /** One row of `news`. The store-assigned `id` is not modelled. */
  datatype Row = Row(
    title: string,
    summary: string,
    category: string,
    topicHash: Key,
    repetitionCount: int,
    score: int,
    createdAt: int)

  type Table = map<Key, Row>

  /** The JSON body of a request; a field that is not there is `None`. */
  datatype Request = Request(title: Option<string>, summary: Option<string>, category: Option<string>)

  /** The three answers: `{skipped: true}`, `{saved: true}`, `{updated: true}`. */
  datatype Outcome = Skipped | Saved | Updated

  datatype Response = Response(outcome: Outcome, table: Table)

  /** JavaScript truthiness of a string field: present and not empty. */
  predicate Truthy(field: Option<string>) {
    field.Some? && field.value != ""
  }

  /** A request the handler does not skip. */
  predicate Accepted(req: Request) {
    Truthy(req.title) && Truthy(req.summary)
  }

  /** `category || "State"`: the category a new row is stored with. */
  function StoredCategory(category: Option<string>): (c: string)
    ensures c != ""
    ensures Truthy(category) ==> c == category.value
    ensures !Truthy(category) ==> c == "State"
  {
    if Truthy(category) then category.value else "State"
  }

  /** `makeTopicHash(clean(title))`. */
  function TopicKey(hash: string -> Key, title: string): Key {
    hash(Clean(title))
  }

  function KeyOf(hash: string -> Key, req: Request): Key
    requires Accepted(req)
  {
    TopicKey(hash, req.title.value)
  }

  /** `after` is `before` with one row added under `key` and nothing else changed. */
  predicate AddsOnly(before: Table, after: Table, key: Key) {
    && key !in before
    && after.Keys == before.Keys + {key}
    && forall k :: k in before ==> k in after && after[k] == before[k]
  }

  /** `after` is `before` with at most the row under `key` changed. */
  predicate ChangesOnly(before: Table, after: Table, key: Key) {
    && key in before
    && after.Keys == before.Keys
    && forall k :: k in before && k != key ==> k in after && after[k] == before[k]
  }

  /** The row first stored for an accepted request at time `now`: the title and
      summary verbatim, the stored category, one repetition, the score of one
      repetition, and `now` as the first-sighting time. */
  function FirstSighting(req: Request, key: Key, now: int): (row: Row)
    requires Accepted(req)
    ensures row.repetitionCount == 1 && row.createdAt == now && row.topicHash == key
    ensures row.title == req.title.value && row.summary == req.summary.value
  {
    var category := StoredCategory(req.category);
    Row(req.title.value, req.summary.value, category, key, 1, Score(1, Some(category), now, now), now)
  }

  /** The merge branch (server.js:80-90): one more repetition, and the score
      recomputed from the stored category and the stored first-sighting time,
      never from the request's category. In the deployed program the unquoted
      column `createdAt` is folded to `createdat` by PostgreSQL, so
      `row.createdAt` reads `undefined` and the age bonus is 0 on every merge;
      the model follows the source text and passes the stored time. */
  function Merge(table: Table, key: Key, now: int): (r: Table)
    requires key in table
    ensures ChangesOnly(table, r, key)
    ensures r[key].repetitionCount == table[key].repetitionCount + 1
    ensures r[key].score == Score(r[key].repetitionCount, Some(table[key].category), table[key].createdAt, now)
    ensures r[key] == table[key].(repetitionCount := r[key].repetitionCount, score := r[key].score)
  {
    var row := table[key];
    var newCount := row.repetitionCount + 1;
    var newScore := Score(newCount, Some(row.category), row.createdAt, now);
    table[key := row.(repetitionCount := newCount, score := newScore)]
  }

  /** The merge branch as it behaves against PostgreSQL. The column
      `createdAt` is declared unquoted (server.js:28), so PostgreSQL names it
      `createdat`, the row read back at server.js:81 has no property
      `createdAt`, and the recomputed score never carries an age bonus.
      `Merge` is the evidently intended behaviour; `MergeAsDeployedLosesRecency`
      measures the difference. */
  function MergeAsDeployed(table: Table, key: Key, now: int): (r: Table)
    requires key in table
    ensures ChangesOnly(table, r, key)
    ensures r[key].repetitionCount == table[key].repetitionCount + 1
    ensures r[key].score == ScoreOfUnknownAge(r[key].repetitionCount, Some(table[key].category))
    ensures r[key] == table[key].(repetitionCount := r[key].repetitionCount, score := r[key].score)
  {
    var row := table[key];
    var newCount := row.repetitionCount + 1;
    table[key := row.(repetitionCount := newCount, score := ScoreOfUnknownAge(newCount, Some(row.category)))]
  }

  /** The deployed merge gives a topic under an hour old ten points less than
      the intended merge, and one under three hours old five points less; the
      rows agree in everything else. */
  lemma MergeAsDeployedLosesRecency(table: Table, key: Key, now: int)
    requires key in table
    ensures var age := now - table[key].createdAt;
            && Merge(table, key, now)[key].score - MergeAsDeployed(table, key, now)[key].score
               == (if age < 3600000 then 10 else if age < 10800000 then 5 else 0)
            && MergeAsDeployed(table, key, now)
               == Merge(table, key, now)[key := MergeAsDeployed(table, key, now)[key]]
  {
    var row := table[key];
    UnknownAgeScoresAsStale(row.repetitionCount + 1, Some(row.category), row.createdAt, now);
  }

  /** The insert branch (server.js:93-101). The score is computed from the raw
      request category while the row stores `category || "State"`;
      `InitialScoreCategory` shows the two agree. */
  function Insert(table: Table, key: Key, req: Request, now: int): (r: Table)
    requires Accepted(req) && key !in table
    ensures AddsOnly(table, r, key)
    ensures r[key] == FirstSighting(req, key, now)
  {
    var createdAt := now;
    var initialScore := Score(1, req.category, createdAt, now);
    InitialScoreCategory(req.category, now);
    var row := Row(req.title.value, req.summary.value, StoredCategory(req.category),
                   key, 1, initialScore, createdAt);
    table[key := row]
  }

  /** The handler body (server.js:66-103), one request at a time: skip a
      request without title or summary, otherwise merge into the row of its
      topic or insert a new row. */
  function Upsert(table: Table, hash: string -> Key, req: Request, now: int): (r: Response)
    ensures r.outcome == Skipped <==> !Accepted(req)
    ensures r.outcome == Skipped ==> r.table == table
    ensures r.outcome == Saved <==> Accepted(req) && KeyOf(hash, req) !in table
    ensures r.outcome == Updated <==> Accepted(req) && KeyOf(hash, req) in table
    ensures r.outcome == Saved ==> r.table == Insert(table, KeyOf(hash, req), req, now)
    ensures r.outcome == Updated ==> r.table == Merge(table, KeyOf(hash, req), now)
  {
    if !Truthy(req.title) || !Truthy(req.summary) then
      Response(Skipped, table)
    else
      var key := TopicKey(hash, req.title.value);
      if key in table then Response(Updated, Merge(table, key, now))
      else Response(Saved, Insert(table, key, req, now))
  }

  /** Scoring the raw request category or the stored `category || "State"` gives
      the same initial score: both miss the bonuses unless the category is
      exactly "Cricket" or "Politics". */
  lemma InitialScoreCategory(category: Option<string>, now: int)
    ensures Score(1, category, now, now) == Score(1, Some(StoredCategory(category)), now, now)
  {
    assert CategoryBonus(category) == CategoryBonus(Some(StoredCategory(category)));
  }

  /** A new topic scores 19 for Cricket, 18 for Politics and 16 otherwise. */
  lemma InitialScoreValues(req: Request, key: Key, now: int)
    requires Accepted(req)
    ensures FirstSighting(req, key, now).score
         == if req.category == Some("Cricket") then 19
            else if req.category == Some("Politics") then 18
            else 16
  {
    ScoreFormula(1, Some(StoredCategory(req.category)), now, now);
  }

  // ---------------------------------------------------------------------------
  // The table invariant

  /** What every row written by the handler satisfies. */
  predicate RowInvariant(key: Key, row: Row) {
    && row.topicHash == key
    && row.repetitionCount >= 1
    && row.category != ""
    && PointsPerRepetition * row.repetitionCount <= row.score <= PointsPerRepetition * row.repetitionCount + 13
  }

  /** Each row sits under its own topic hash (the uniqueness of `topic_hash`),
      and its counters are in range. */
  predicate Valid(table: Table) {
    forall k :: k in table ==> RowInvariant(k, table[k])
  }

  lemma UpsertPreservesValid(table: Table, hash: string -> Key, req: Request, now: int)
    requires Valid(table)
    ensures Valid(Upsert(table, hash, req, now).table)
  {
    var r := Upsert(table, hash, req, now);
    if r.outcome != Skipped {
      var key := KeyOf(hash, req);
      assert RowInvariant(key, r.table[key]);
    }
  }

  // ---------------------------------------------------------------------------
  // Sequences of ingestions

  /** A request together with the clock reading at which it is handled. */
  datatype Arrival = Arrival(request: Request, now: int)

  /** One request never removes a row, never moves a creation time and never
      lowers a repetition count. */
  lemma UpsertKeepsRows(table: Table, hash: string -> Key, req: Request, now: int)
    ensures var r := Upsert(table, hash, req, now).table;
            && table.Keys <= r.Keys
            && (forall k :: k in table ==> r[k].createdAt == table[k].createdAt)
            && (forall k :: k in table ==> r[k].repetitionCount >= table[k].repetitionCount)
  {
    var r := Upsert(table, hash, req, now);
    if r.outcome != Skipped {
      var key := KeyOf(hash, req);
      assert key in table ==> r.table[key].createdAt == table[key].createdAt;
    }
  }

  /** Handle the arrivals one after another. */
  function IngestAll(table: Table, hash: string -> Key, arrivals: seq<Arrival>): (r: Table)
    ensures Valid(table) ==> Valid(r)
    ensures table.Keys <= r.Keys
    ensures forall k :: k in table ==> r[k].createdAt == table[k].createdAt
    ensures forall k :: k in table ==> r[k].repetitionCount >= table[k].repetitionCount
    decreases |arrivals|
  {
    if arrivals == [] then table
    else
      var first := Upsert(table, hash, arrivals[0].request, arrivals[0].now).table;
      UpsertKeepsRows(table, hash, arrivals[0].request, arrivals[0].now);
      assert Valid(table) ==> Valid(first) by {
        if Valid(table) {
          UpsertPreservesValid(table, hash, arrivals[0].request, arrivals[0].now);
        }
      }
      IngestAll(first, hash, arrivals[1..])
  }

  /** Every arrival is accepted and its title cleans to a key `key`. */
  predicate AllOnTopic(hash: string -> Key, arrivals: seq<Arrival>, key: Key) {
    forall i :: 0 <= i < |arrivals| ==>
      Accepted(arrivals[i].request) && KeyOf(hash, arrivals[i].request) == key
  }

  lemma AllOnTopicTail(hash: string -> Key, arrivals: seq<Arrival>, key: Key)
    requires |arrivals| > 0 && AllOnTopic(hash, arrivals, key)
    ensures AllOnTopic(hash, arrivals[1..], key)
  {
    forall i | 0 <= i < |arrivals| - 1
      ensures Accepted(arrivals[1..][i].request) && KeyOf(hash, arrivals[1..][i].request) == key
    {
      assert arrivals[1..][i] == arrivals[i + 1];
    }
  }

  /** Arrivals on a topic that already has a row only merge into that row. */
  lemma {:induction false} RepeatsMerge(table: Table, hash: string -> Key, arrivals: seq<Arrival>, key: Key)
    requires key in table
    requires AllOnTopic(hash, arrivals, key)
    ensures var r := IngestAll(table, hash, arrivals);
            && ChangesOnly(table, r, key)
            && r[key].repetitionCount == table[key].repetitionCount + |arrivals|
            && r[key] == table[key].(repetitionCount := r[key].repetitionCount, score := r[key].score)
    decreases |arrivals|
  {
    if arrivals != [] {
      var a := arrivals[0];
      assert Accepted(a.request) && KeyOf(hash, a.request) == key;
      var first := Upsert(table, hash, a.request, a.now).table;
      assert first == Merge(table, key, a.now);
      assert IngestAll(table, hash, arrivals) == IngestAll(first, hash, arrivals[1..]);
      AllOnTopicTail(hash, arrivals, key);
      RepeatsMerge(first, hash, arrivals[1..], key);
    }
  }

  /** Accepted arrivals on a topic not yet in the table: the first inserts
      the row, the rest merge into it. */
  lemma {:induction false} NewTopicCount(table: Table, hash: string -> Key, arrivals: seq<Arrival>, key: Key)
    requires |arrivals| >= 1
    requires key !in table
    requires AllOnTopic(hash, arrivals, key)
    ensures var r := IngestAll(table, hash, arrivals);
            && AddsOnly(table, r, key)
            && r[key].repetitionCount == |arrivals|
            && r[key] == FirstSighting(arrivals[0].request, key, arrivals[0].now)
                           .(repetitionCount := |arrivals|, score := r[key].score)
  {
    var a := arrivals[0];
    assert Accepted(a.request) && KeyOf(hash, a.request) == key;
    var first := Upsert(table, hash, a.request, a.now).table;
    assert first == Insert(table, key, a.request, a.now);
    assert IngestAll(table, hash, arrivals) == IngestAll(first, hash, arrivals[1..]);
    assert first[key] == FirstSighting(a.request, key, a.now);
    AllOnTopicTail(hash, arrivals, key);
    RepeatsMerge(first, hash, arrivals[1..], key);
    var r := IngestAll(first, hash, arrivals[1..]);
    AddsThenChanges(table, first, r, key);
    assert r[key].repetitionCount == |arrivals|;
    assert r[key] == first[key].(repetitionCount := |arrivals|, score := r[key].score);
  }

  /** Adding a row and then changing only that row adds only that row. */
  lemma AddsThenChanges(t0: Table, t1: Table, t2: Table, key: Key)
    requires AddsOnly(t0, t1, key) && ChangesOnly(t1, t2, key)
    ensures AddsOnly(t0, t2, key)
  {
  }

  /** Deduplication: N accepted ingestions of titles with the same canonical
      form, on a topic not yet in the table, leave exactly one new row, whose
      count is N and whose title, summary, category and creation time are those
      of the first ingestion. */
  lemma DeduplicatedCount(table: Table, hash: string -> Key, arrivals: seq<Arrival>, canonical: string)
    requires |arrivals| >= 1
    requires hash(canonical) !in table
    requires forall i :: 0 <= i < |arrivals| ==>
               Accepted(arrivals[i].request) && Clean(arrivals[i].request.title.value) == canonical
    ensures var r := IngestAll(table, hash, arrivals);
            var key := hash(canonical);
            && AddsOnly(table, r, key)
            && r[key].repetitionCount == |arrivals|
            && r[key] == FirstSighting(arrivals[0].request, key, arrivals[0].now)
                           .(repetitionCount := |arrivals|, score := r[key].score)
  {
    assert AllOnTopic(hash, arrivals, hash(canonical));
    NewTopicCount(table, hash, arrivals, hash(canonical));
  }
}
