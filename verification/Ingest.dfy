/** Ingestion from the CA database: the cursor query of internal/cadb/adapter.go
    and the poll of internal/watcher/watcher.go. */
module Ingest {
  import opened Wrappers
  import opened Hashing
  import opened IssuanceLog
  import opened NodeTable

  /** (created_date, id), where id is the position of the identifier in the
      column's collation order. */
  datatype Key = Key(created: int, id: nat)

  datatype Row = Row(key: Key, cert: Certificate)

  predicate Less(a: Key, b: Key) {
    a.created < b.created || (a.created == b.created && a.id < b.id)
  }

  /** The WHERE clause: created_date > ? OR (created_date = ? AND id > ?).  With
      no stored cursor the poll starts below every row. */
  predicate After(row: Row, cursor: Option<Key>) {
    cursor.None? || Less(cursor.value, row.key)
  }

  /** The rows in the order of the query, ORDER BY created_date, id; identifiers
      are unique. */
  ghost predicate Ordered(rows: seq<Row>) {
    forall i, j :: 0 <= i < j < |rows| ==> Less(rows[i].key, rows[j].key)
  }

  function RowsAfter(rows: seq<Row>, cursor: Option<Key>): seq<Row> {
    if |rows| == 0 then []
    else (if After(rows[0], cursor) then [rows[0]] else []) + RowsAfter(rows[1..], cursor)
  }

  /** FetchNewCertificates on the rows that pass the issuer filter. */
  function Fetch(rows: seq<Row>, cursor: Option<Key>, limit: nat): seq<Row> {
    var found := RowsAfter(rows, cursor);
    if |found| <= limit then found else found[..limit]
  }

  function Certs(rows: seq<Row>): seq<Certificate> {
    seq(|rows|, i requires 0 <= i < |rows| => rows[i].cert)
  }

  /** How many rows are at or below the cursor. */
  function Passed(rows: seq<Row>, cursor: Option<Key>): (n: nat)
    ensures n <= |rows|
  {
    if |rows| == 0 || After(rows[0], cursor) then 0 else 1 + Passed(rows[1..], cursor)
  }

  /** In query order the passed rows are a prefix and the new rows the rest. */
  lemma {:induction false} PassedIsPrefix(rows: seq<Row>, cursor: Option<Key>)
    requires Ordered(rows)
    ensures RowsAfter(rows, cursor) == rows[Passed(rows, cursor)..]
    ensures forall i :: 0 <= i < |rows| ==> (After(rows[i], cursor) <==> i >= Passed(rows, cursor))
  {
    if |rows| > 0 {
      PassedIsPrefix(rows[1..], cursor);
      var rest := rows[1..];
      if After(rows[0], cursor) {
        assert forall i :: 0 <= i < |rest| ==> After(rest[i], cursor);
        assert Passed(rest, cursor) == 0;
        assert rows == [rows[0]] + rest;
      } else {
        assert rows[Passed(rows, cursor)..] == rest[Passed(rest, cursor)..];
        forall i | 0 <= i < |rows|
          ensures After(rows[i], cursor) <==> i >= Passed(rows, cursor)
        {
          assert i > 0 ==> rows[i] == rest[i - 1];
        }
      }
    }
  }

  /** A prefix length with this property is the number of passed rows. */
  lemma PassedUnique(rows: seq<Row>, cursor: Option<Key>, n: nat)
    requires Ordered(rows) && n <= |rows|
    requires forall i :: 0 <= i < |rows| ==> (After(rows[i], cursor) <==> i >= n)
    ensures Passed(rows, cursor) == n
  {
    PassedIsPrefix(rows, cursor);
    var p := Passed(rows, cursor);
    if p < |rows| {
      assert After(rows[p], cursor);
    }
    if n < |rows| {
      assert After(rows[n], cursor);
    }
  }

  // ----- runs -----

  /** How a poll ends: a query or append error, an error after the append when
      the cursor is stored, or success. */
  datatype Outcome = NoAppend | CursorLost | Success

  /** `ingested` records the rows behind the certificate entries; no code reads it. */
  datatype State = State(rows: seq<Row>, cursor: Option<Key>, entries: seq<LogEntry>, ingested: seq<Row>)

  datatype Event =
    | Insert(row: Row, at: nat)
    | AppendDirect(entry: LogEntry)
    | Poll(cursorRead: bool, outcome: Outcome)

  /** A row of the CA database appears where the query order puts it. */
  ghost predicate Insertable(rows: seq<Row>, row: Row, at: nat) {
    at <= |rows| && Ordered(rows[..at] + [row] + rows[at..])
  }

  function Inserted(rows: seq<Row>, row: Row, at: nat): seq<Row>
    requires at <= |rows|
  {
    rows[..at] + [row] + rows[at..]
  }

  /** Where a poll starts: any error when the cursor is read, and not only a
      missing one, sends it back to the first row. */
  function PollStart(cursor: Option<Key>, cursorRead: bool): Option<Key> {
    if cursorRead then cursor else None
  }

  /** Direct appends carry the entry types 2 and 3. */
  ghost function Next(s: State, e: Event, batchSize: nat): State {
    match e
    case Insert(row, at) => if Insertable(s.rows, row, at) then s.(rows := Inserted(s.rows, row, at)) else s
    case AppendDirect(entry) =>
      if entry.entryType == ENTRY_TYPE_CERTIFICATE then s else s.(entries := s.entries + [entry])
    case Poll(cursorRead, outcome) =>
      var batch := Fetch(s.rows, PollStart(s.cursor, cursorRead), batchSize);
      if |batch| == 0 || outcome == NoAppend then s
      else
        s.(entries := s.entries + BuildEntries(Certs(batch)),
           ingested := s.ingested + batch,
           cursor := if outcome == Success then Some(batch[|batch| - 1].key) else s.cursor)
  }

  ghost function Run(events: seq<Event>, batchSize: nat): State {
    if |events| == 0 then State([], None, [], [])
    else Next(Run(events[..|events| - 1], batchSize), events[|events| - 1], batchSize)
  }

  /** The certificate entries of the log, in log order. */
  function CertificateEntries(entries: seq<LogEntry>): seq<LogEntry> {
    if |entries| == 0 then []
    else
      var last := entries[|entries| - 1];
      CertificateEntries(entries[..|entries| - 1]) + (if last.entryType == ENTRY_TYPE_CERTIFICATE then [last] else [])
  }

  lemma {:induction false} CertificateEntriesConcat(a: seq<LogEntry>, b: seq<LogEntry>)
    ensures CertificateEntries(a + b) == CertificateEntries(a) + CertificateEntries(b)
    decreases |b|
  {
    if |b| == 0 {
      assert a + b == a;
    } else {
      assert (a + b)[..|a + b| - 1] == a + b[..|b| - 1];
      CertificateEntriesConcat(a, b[..|b| - 1]);
    }
  }

  lemma {:induction false} BuiltAreCertificates(certs: seq<Certificate>)
    ensures CertificateEntries(BuildEntries(certs)) == BuildEntries(certs)
    decreases |certs|
  {
    hide BuildEntry;
    if |certs| > 0 {
      var init := certs[..|certs| - 1];
      BuiltAreCertificates(init);
      var built := BuildEntries(certs);
      assert built[..|certs| - 1] == BuildEntries(init);
      assert built == BuildEntries(init) + [BuildEntry(certs[|certs| - 1])];
      BuiltType(certs[|certs| - 1]);
    }
  }

  lemma BuiltType(cert: Certificate)
    ensures BuildEntry(cert).entryType == ENTRY_TYPE_CERTIFICATE
  {
  }

  /** What holds with any failures: the log's certificate entries are those of
      the ingested rows, and every row at or below the cursor is among them. */
  ghost predicate Kept(s: State) {
    && Ordered(s.rows)
    && CertificateEntries(s.entries) == BuildEntries(Certs(s.ingested))
    && (forall i :: 0 <= i < Passed(s.rows, s.cursor) ==> s.rows[i] in s.ingested)
  }

  /** What holds when no cursor is lost: exactly the passed rows, once each and
      in order. */
  ghost predicate Exact(s: State) {
    Ordered(s.rows) && s.ingested == s.rows[..Passed(s.rows, s.cursor)]
  }

  /** The guard of the guarantee: a new row sorts after the cursor. */
  ghost predicate Timely(s: State, e: Event) {
    e.Insert? ==> After(e.row, s.cursor)
  }

  ghost predicate TimelyRun(events: seq<Event>, batchSize: nat) {
    forall i: nat :: i < |events| ==> Timely(Run(events[..i], batchSize), events[i])
  }

  /** The cursor was read before the poll and, if it appended, stored after it. */
  predicate CursorSafe(e: Event) {
    e.Poll? ==> e.cursorRead && e.outcome != CursorLost
  }

  ghost predicate NoLostCursor(events: seq<Event>) {
    forall i :: 0 <= i < |events| ==> CursorSafe(events[i])
  }

  /** What one poll fetches: the next rows after the passed ones. */
  lemma FetchedRows(rows: seq<Row>, cursor: Option<Key>, limit: nat)
    requires Ordered(rows)
    ensures var n := Passed(rows, cursor);
            var m := if |rows| - n <= limit then |rows| else n + limit;
            && Fetch(rows, cursor, limit) == rows[n..m]
            && (n < m ==> Passed(rows, Some(rows[m - 1].key)) == m)
  {
    hide RowsAfter, Passed;
    PassedIsPrefix(rows, cursor);
    var n := Passed(rows, cursor);
    var m := if |rows| - n <= limit then |rows| else n + limit;
    assert rows[n..][..m - n] == rows[n..m];
    if n < m {
      PassedUnique(rows, Some(rows[m - 1].key), m);
    }
  }

  /** The query in the columns themselves: of rows sorted by creation date and
      then identifier it returns the first `limit` that were created later than the
      cursor, or at the same time with a larger identifier. */
  lemma QueryRows(rows: seq<Row>, cursor: Key, limit: nat) returns (n: nat)
    requires forall i, j :: 0 <= i < j < |rows| ==>
               || rows[i].key.created < rows[j].key.created
               || (rows[i].key.created == rows[j].key.created && rows[i].key.id < rows[j].key.id)
    ensures n <= |rows|
    ensures forall i :: 0 <= i < |rows| ==>
              (i >= n <==> || rows[i].key.created > cursor.created
                           || (rows[i].key.created == cursor.created && rows[i].key.id > cursor.id))
    ensures Fetch(rows, Some(cursor), limit) == rows[n..if |rows| - n <= limit then |rows| else n + limit]
    ensures Fetch(rows, None, limit) == rows[..if |rows| <= limit then |rows| else limit]
  {
    hide RowsAfter, Passed;
    n := Passed(rows, Some(cursor));
    PassedIsPrefix(rows, Some(cursor));
    FetchedRows(rows, Some(cursor), limit);
    PassedFromStart(rows);
    FetchedRows(rows, None, limit);
    assert forall i :: 0 <= i < |rows| ==> (After(rows[i], Some(cursor)) <==> i >= n);
  }

  /** A poll that appends: which rows, and where the cursor is afterwards. */
  lemma PollAppends(s: State, cursorRead: bool, outcome: Outcome, batchSize: nat, k: nat, m: nat)
    requires Kept(s) && outcome != NoAppend
    requires k == (if cursorRead then Passed(s.rows, s.cursor) else 0)
    requires m == |Fetch(s.rows, PollStart(s.cursor, cursorRead), batchSize)| > 0
    ensures var t := Next(s, Poll(cursorRead, outcome), batchSize);
            && k + m <= |s.rows| && t.rows == s.rows && t.ingested == s.ingested + s.rows[k..k + m]
            && Passed(t.rows, t.cursor) == (if outcome == Success then k + m else Passed(s.rows, s.cursor))
            && CertificateEntries(t.entries) == BuildEntries(Certs(t.ingested))
  {
    hide Passed, Fetch, BuildEntries, CertificateEntries, Ordered;
    var start := PollStart(s.cursor, cursorRead);
    var batch := Fetch(s.rows, start, batchSize);
    PassedFromStart(s.rows);
    FetchedRows(s.rows, start, batchSize);
    CertificateEntriesConcat(s.entries, BuildEntries(Certs(batch)));
    BuiltAreCertificates(Certs(batch));
    BuildConcat(s.ingested, batch);
  }

  /** One poll keeps the rows below the cursor in the log whatever fails, and
      keeps the log exact if and only if it appends nothing or both the reading
      and the storing of the cursor succeed; a cursor that was not read does no
      harm as long as nothing has passed. */
  lemma PollKeeps(s: State, cursorRead: bool, outcome: Outcome, batchSize: nat)
    requires Kept(s)
    ensures Kept(Next(s, Poll(cursorRead, outcome), batchSize))
    ensures var n := Passed(s.rows, s.cursor);
            var appends := outcome != NoAppend && |Fetch(s.rows, PollStart(s.cursor, cursorRead), batchSize)| > 0;
            Exact(s) ==>
              (Exact(Next(s, Poll(cursorRead, outcome), batchSize))
               <==> (appends ==> outcome == Success && (cursorRead || n == 0)))
  {
    hide Passed, Fetch, BuildEntries, CertificateEntries, Ordered;
    var m := |Fetch(s.rows, PollStart(s.cursor, cursorRead), batchSize)|;
    if m > 0 && outcome != NoAppend {
      var n := Passed(s.rows, s.cursor);
      var k := if cursorRead then n else 0;
      PollAppends(s, cursorRead, outcome, batchSize, k, m);
      var t := Next(s, Poll(cursorRead, outcome), batchSize);
      hide Next;
      AppendedKeeps(s, t, n, k, m, if outcome == Success then k + m else n);
    }
  }

  lemma AppendedKeeps(s: State, t: State, n: nat, k: nat, m: nat, now: nat)
    requires n <= |s.rows| && k + m <= |s.rows| && m > 0 && (k == n || k == 0) && (now == n || now == k + m)
    requires t.rows == s.rows && t.ingested == s.ingested + s.rows[k..k + m]
    requires forall i :: 0 <= i < n ==> s.rows[i] in s.ingested
    ensures forall i :: 0 <= i < now ==> t.rows[i] in t.ingested
    ensures s.ingested == s.rows[..n] ==> (t.ingested == t.rows[..now] <==> now == k + m && k == n)
  {
    forall i | 0 <= i < now
      ensures t.rows[i] in t.ingested
    {
      if k <= i && now == k + m {
        assert t.rows[i] == s.rows[k..k + m][i - k];
      }
    }
    if s.ingested == s.rows[..n] && now == k + m && k == n {
      assert t.ingested == s.rows[..n] + s.rows[n..n + m] == s.rows[..now];
    }
  }

  lemma PassedFromStart(rows: seq<Row>)
    ensures Passed(rows, None) == 0
  {
  }

  lemma BuildConcat(a: seq<Row>, b: seq<Row>)
    ensures BuildEntries(Certs(a + b)) == BuildEntries(Certs(a)) + BuildEntries(Certs(b))
  {
    hide BuildEntry;
  }

  /** A row that sorts after the cursor lands beyond the passed rows. */
  lemma InsertKeeps(s: State, row: Row, at: nat)
    requires Kept(s) && Insertable(s.rows, row, at) && After(row, s.cursor)
    ensures var rows := Inserted(s.rows, row, at);
            var n := Passed(s.rows, s.cursor);
            && n <= at && Passed(rows, s.cursor) == n && rows[..n] == s.rows[..n]
  {
    hide Passed, CertificateEntries, BuildEntries;
    var rows := Inserted(s.rows, row, at);
    var n := Passed(s.rows, s.cursor);
    PassedIsPrefix(s.rows, s.cursor);
    if at < |s.rows| {
      assert rows[at] == row && rows[at + 1] == s.rows[at];
      assert Less(row.key, s.rows[at].key);
    }
    forall i | 0 <= i < |rows|
      ensures After(rows[i], s.cursor) <==> i >= n
    {
      assert i < at ==> rows[i] == s.rows[i];
      assert i > at ==> rows[i] == s.rows[i - 1];
    }
    PassedUnique(rows, s.cursor, n);
  }

  lemma StepKeeps(s: State, e: Event, batchSize: nat)
    requires Kept(s) && Timely(s, e)
    ensures Kept(Next(s, e, batchSize))
    ensures Exact(s) && CursorSafe(e) ==> Exact(Next(s, e, batchSize))
  {
    match e
    case Insert(row, at) =>
      hide Passed, CertificateEntries, BuildEntries;
      if Insertable(s.rows, row, at) {
        InsertKeeps(s, row, at);
        var t := Next(s, e, batchSize);
        forall i | 0 <= i < Passed(t.rows, t.cursor)
          ensures t.rows[i] in t.ingested
        {
          assert t.rows[i] == s.rows[i];
        }
      }
    case AppendDirect(entry) =>
      hide Passed, BuildEntries;
      CertificateEntriesConcat(s.entries, [entry]);
      assert [entry][..0] == [];
    case Poll(cursorRead, outcome) =>
      hide Passed, CertificateEntries, BuildEntries, Fetch;
      PollKeeps(s, cursorRead, outcome, batchSize);
  }

  /** In every run whose new rows sort after the cursor, whatever fails, every
      row at or below the cursor is in the log.  If moreover no cursor is lost,
      the certificate entries of the log are exactly those rows, once each and in
      query order, with direct appends interleaved freely. */
  lemma {:induction false} RunKeeps(events: seq<Event>, batchSize: nat)
    requires TimelyRun(events, batchSize)
    ensures Kept(Run(events, batchSize))
    ensures NoLostCursor(events) ==> Exact(Run(events, batchSize))
    decreases |events|
  {
    hide Kept, Next, Timely;
    if |events| == 0 {
      EmptyKeeps();
    } else {
      var before := events[..|events| - 1];
      assert TimelyRun(before, batchSize) by {
        forall i: nat | i < |before|
          ensures Timely(Run(before[..i], batchSize), before[i])
        {
          assert before[..i] == events[..i];
        }
      }
      RunKeeps(before, batchSize);
      hide Exact;
      StepKeeps(Run(before, batchSize), events[|events| - 1], batchSize);
    }
  }

  lemma EmptyKeeps()
    ensures Kept(State([], None, [], [])) && Exact(State([], None, [], []))
  {
  }

  /** Where the certificate entries stand in the log. */
  lemma {:induction false} CertificatePositions(entries: seq<LogEntry>) returns (at: seq<nat>)
    ensures |at| == |CertificateEntries(entries)|
    ensures forall k :: 0 <= k < |at| ==> at[k] < |entries| && entries[at[k]] == CertificateEntries(entries)[k]
    ensures forall k, l :: 0 <= k < l < |at| ==> at[k] < at[l]
    ensures forall i :: 0 <= i < |entries| ==> (i in at <==> entries[i].entryType == 1)
  {
    if |entries| == 0 {
      at := [];
    } else {
      var n := |entries| - 1;
      var before := CertificatePositions(entries[..n]);
      var init := CertificateEntries(entries[..n]);
      var last := if entries[n].entryType == 1 then [n] else [];
      at := before + last;
      assert CertificateEntries(entries) == init + seq(|last|, _ => entries[n]);
      hide CertificateEntries;
      forall i | 0 <= i < |entries|
        ensures i in at <==> entries[i].entryType == 1
      {
        assert i in at <==> i in before || i in last;
        assert i < n ==> entries[..n][i] == entries[i];
      }
    }
  }

  /** The log in a timely run that lost no cursor: its certificate entries are, in
      log order, those of the rows that were created no later than the cursor, or
      at the same time with no larger identifier. */
  lemma ExactLog(events: seq<Event>, batchSize: nat) returns (at: seq<nat>)
    requires TimelyRun(events, batchSize) && NoLostCursor(events)
    ensures var s := Run(events, batchSize);
            CertificateEntries(s.entries) == BuildEntries(Certs(s.rows[..Passed(s.rows, s.cursor)]))
    ensures var s := Run(events, batchSize);
            && |at| <= |s.rows|
            && (forall i :: 0 <= i < |s.entries| ==> (i in at <==> s.entries[i].entryType == 1))
            && (forall k, l :: 0 <= k < l < |at| ==> at[k] < at[l])
            && forall k :: 0 <= k < |s.rows| ==>
                 (k < |at| <==> s.cursor.Some? && (|| s.rows[k].key.created < s.cursor.value.created
                                                   || (s.rows[k].key.created == s.cursor.value.created
                                                       && s.rows[k].key.id <= s.cursor.value.id)))
    ensures var s := Run(events, batchSize);
            |at| <= |s.rows| &&
            forall k :: 0 <= k < |at| ==>
              && at[k] < |s.entries| && s.entries[at[k]].serial == s.rows[k].cert.serial
              && s.entries[at[k]].caCertId == s.rows[k].cert.issuerId
              && |s.entries[at[k]].data| >= 6 && s.entries[at[k]].data[6..] == s.rows[k].cert.blob
  {
    hide Run, TimelyRun, NoLostCursor, CertificateEntries, Passed, BuildEntry;
    RunKeeps(events, batchSize);
    var s := Run(events, batchSize);
    at := CertificatePositions(s.entries);
    PassedIsPrefix(s.rows, s.cursor);
    AllEntryBytes(Certs(s.rows[..Passed(s.rows, s.cursor)]));
  }

  /** One row, two polls that both succeed, and a cursor that the second one
      could not read: the log holds the row's certificate twice. */
  lemma UnreadCursorDuplicates(row: Row, batchSize: nat)
    requires batchSize >= 1
    ensures var s := Run([Insert(row, 0), Poll(true, Success), Poll(false, Success)], batchSize);
            && s.rows == [row] && s.ingested == [row, row]
            && CertificateEntries(s.entries) == [BuildEntry(row.cert), BuildEntry(row.cert)] && !Exact(s)
  {
    hide BuildEntry, Next, Run, Passed, Ordered, CertificateEntries, BuildEntries;
    var build := BuildEntry(row.cert);
    TwoPolls(row, batchSize);
    TwoCertificates(row.cert);
    var s := State([row], Some(row.key), [build, build], [row, row]);
    assert |s.rows[..Passed(s.rows, s.cursor)]| <= 1;
  }

  lemma TwoPolls(row: Row, batchSize: nat)
    requires batchSize >= 1
    ensures var build := BuildEntry(row.cert);
            Run([Insert(row, 0), Poll(true, Success), Poll(false, Success)], batchSize) ==
            State([row], Some(row.key), [build, build], [row, row])
  {
    hide BuildEntry, Next, Run;
    var e0, e1, e2 := Insert(row, 0), Poll(true, Success), Poll(false, Success);
    var build := BuildEntry(row.cert);
    RunNothing(batchSize);
    RunNext([], e0, batchSize);
    RunNext([e0], e1, batchSize);
    RunNext([e0, e1], e2, batchSize);
    assert [] + [e0] == [e0] && [e0] + [e1] == [e0, e1] && [e0, e1] + [e2] == [e0, e1, e2];
    FirstRow(row, batchSize);
    PollOnlyRow(State([row], None, [], []), row, true, batchSize);
    PollOnlyRow(State([row], Some(row.key), [build], [row]), row, false, batchSize);
    assert [] + [build] == [build] && [] + [row] == [row];
    assert [build] + [build] == [build, build] && [row] + [row] == [row, row];
  }

  lemma TwoCertificates(cert: Certificate)
    ensures var build := BuildEntry(cert);
            CertificateEntries([build, build]) == [build, build]
  {
    hide BuildEntry;
    var build := BuildEntry(cert);
    BuiltType(cert);
    assert [build][..0] == [] && CertificateEntries([build]) == [build];
    CertificateEntriesConcat([build], [build]);
    assert [build] + [build] == [build, build];
  }

  lemma RunNothing(batchSize: nat)
    ensures Run([], batchSize) == State([], None, [], [])
  {
  }

  lemma RunNext(events: seq<Event>, e: Event, batchSize: nat)
    ensures Run(events + [e], batchSize) == Next(Run(events, batchSize), e, batchSize)
  {
    hide Next;
    assert (events + [e])[..|events|] == events;
  }

  lemma FirstRow(row: Row, batchSize: nat)
    ensures Next(State([], None, [], []), Insert(row, 0), batchSize) == State([row], None, [], [])
  {
  }

  lemma PollOnlyRow(s: State, row: Row, cursorRead: bool, batchSize: nat)
    requires s.rows == [row] && batchSize >= 1 && (s.cursor == None || !cursorRead)
    ensures Next(s, Poll(cursorRead, Success), batchSize) ==
            State([row], Some(row.key), s.entries + [BuildEntry(row.cert)], s.ingested + [row])
  {
    hide BuildEntry;
    assert [row][1..] == [];
    assert RowsAfter([row], None) == [row];
    assert BuildEntries(Certs([row])) == [BuildEntry(row.cert)];
  }

  // ----- rows that arrive too late -----

  ghost predicate NotAfter(row: Row, cursor: Option<Key>) {
    cursor.Some? && !Less(cursor.value, row.key)
  }

  /** A poll that could read the cursor does not move it back. */
  lemma CursorAdvances(s: State, e: Event, batchSize: nat, row: Row)
    requires Ordered(s.rows) && NotAfter(row, s.cursor) && (e.Poll? ==> e.cursorRead)
    ensures Ordered(Next(s, e, batchSize).rows) && NotAfter(row, Next(s, e, batchSize).cursor)
  {
    hide BuildEntries, Passed;
    if e.Poll? {
      FetchedRows(s.rows, s.cursor, batchSize);
      PassedIsPrefix(s.rows, s.cursor);
    }
  }

  lemma LateRowNotFetched(s: State, e: Event, batchSize: nat, row: Row)
    requires Ordered(s.rows) && NotAfter(row, s.cursor) && row !in s.ingested && (e.Poll? ==> e.cursorRead)
    ensures row !in Next(s, e, batchSize).ingested
  {
    hide BuildEntries, Passed;
    if e.Poll? {
      FetchedRows(s.rows, s.cursor, batchSize);
      PassedIsPrefix(s.rows, s.cursor);
    }
  }

  /** A row that appears at or below the cursor is not ingested as long as the
      cursor can be read: the guard of RunKeeps cannot be dropped. */
  lemma {:induction false} LateRowsAreLost(events: seq<Event>, batchSize: nat, i: nat, row: Row)
    requires i <= |events| && row !in Run(events[..i], batchSize).ingested
    requires NotAfter(row, Run(events[..i], batchSize).cursor)
    requires forall j :: i <= j < |events| && events[j].Poll? ==> events[j].cursorRead
    ensures row !in Run(events, batchSize).ingested && NotAfter(row, Run(events, batchSize).cursor)
    decreases |events|
  {
    hide Next, NotAfter;
    if i == |events| {
      assert events[..i] == events;
    } else {
      var before := events[..|events| - 1];
      assert before[..i] == events[..i];
      LateRowsAreLost(before, batchSize, i, row);
      RunOrdered(before, batchSize);
      CursorAdvances(Run(before, batchSize), events[|events| - 1], batchSize, row);
      LateRowNotFetched(Run(before, batchSize), events[|events| - 1], batchSize, row);
    }
  }

  lemma {:induction false} RunOrdered(events: seq<Event>, batchSize: nat)
    ensures Ordered(Run(events, batchSize).rows)
  {
    hide Fetch, BuildEntries;
    if |events| > 0 {
      RunOrdered(events[..|events| - 1], batchSize);
    }
  }

  // ----- draining -----

  ghost function Polled(s: State, batchSize: nat, polls: nat): State {
    if polls == 0 then s else Next(Polled(s, batchSize, polls - 1), Poll(true, Success), batchSize)
  }

  /** After k successful polls the next k * batchSize pending rows have passed;
      ceil(p / batchSize) polls drain p pending rows, and no fewer do. */
  lemma {:induction false} PollsDrain(s: State, batchSize: nat, polls: nat)
    requires Ordered(s.rows)
    ensures var t, n := Polled(s, batchSize, polls), Passed(s.rows, s.cursor);
            && t.rows == s.rows
            && Passed(t.rows, t.cursor) ==
               (if polls * batchSize >= |s.rows| - n then |s.rows| else n + polls * batchSize)
    decreases polls
  {
    hide Passed, Fetch, BuildEntries;
    if polls > 0 {
      PollsDrain(s, batchSize, polls - 1);
      var before := Polled(s, batchSize, polls - 1);
      FetchedRows(s.rows, before.cursor, batchSize);
      assert polls * batchSize == (polls - 1) * batchSize + batchSize;
    } else {
      assert polls * batchSize == 0;
    }
  }

  // ----- the watcher -----

  class Watcher {
    const log: Log
    const batchSize: nat
    var cursor: Option<Key>
    var certsProcessed: nat

    constructor (log: Log, batchSize: nat)
      ensures this.log == log && this.batchSize == batchSize && cursor == None && certsProcessed == 0
    {
      this.log, this.batchSize, cursor, certsProcessed := log, batchSize, None, 0;
    }

    ghost function Ingested(rows: seq<Row>, ingested: seq<Row>): State
      reads this, log
    {
      State(rows, cursor, log.entries, ingested)
    }

    /** pollCertificates on the rows that the CA database holds now.  `cursorRead`
        and `outcome` are what the calls to the two databases return. */
    method PollCertificates(rows: seq<Row>, cursorRead: bool, outcome: Outcome, ghost ingested: seq<Row>)
      returns (ok: bool, ghost now: seq<Row>)
      requires log.Valid()
      modifies this, log
      ensures log.Valid() && log.checkpoints == old(log.checkpoints)
      ensures Ingested(rows, now) == Next(old(Ingested(rows, ingested)), Poll(cursorRead, outcome), batchSize)
      ensures certsProcessed == old(certsProcessed) + (if ok then |log.entries| - |old(log.entries)| else 0)
      ensures !ok ==> outcome != Success
    {
      hide BuildEntries, RowsAfter, IsStoredTable;
      now := ingested;
      var batch := Fetch(rows, PollStart(cursor, cursorRead), batchSize);
      if |batch| == 0 {
        return true, now;
      }
      if outcome == NoAppend {
        return false, now;
      }
      var count, newSize := log.AppendCertificates(Certs(batch));
      BuiltLength(Certs(batch));
      now := ingested + batch;
      if outcome == CursorLost {
        return false, now;
      }
      cursor := Some(batch[|batch| - 1].key);
      certsProcessed := certsProcessed + count;
      ok := true;
    }
  }

  lemma BuiltLength(certs: seq<Certificate>)
    ensures |BuildEntries(certs)| == |certs|
  {
  }
}
