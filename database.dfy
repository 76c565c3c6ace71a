/** The store of one channel (pkg/database/database.go): the users, channels
    and messages tables, the messages_fts full-text table kept up to date by
    the insert trigger on messages, and the queries the core runs on them.

    SQLite itself is abstract. A write statement that SQLite fails to execute
    is decided by a fault oracle `fails`, asked with the number of write
    statements issued before it; the full-text engine (the MATCH grammar and
    snippet()) is an `FtsEngine` value. */
module Database {
  import opened GoLib
  import opened Models

  // ---------------------------------------------------------------------------
  // sanitizeFilename

  /** The ten characters sanitizeFilename replaces with '_'. */
  predicate Problematic(c: char) {
    c == ':' || c == '/' || c == '\\' || c == '*' || c == '?' ||
    c == '\"' || c == '<' || c == '>' || c == '|' || c == ' '
  }

  function SanitizeChar(c: char): char {
    if Problematic(c) then '_' else c
  }

  /** A strings.Replacer whose old strings are single characters replaces
      character by character: each problematic character becomes '_', every
      other character is kept, and none of the ten is left. */
  function SanitizeFilename(name: string): (r: string)
    ensures |r| == |name|
    ensures forall i :: 0 <= i < |name| ==> r[i] == (if Problematic(name[i]) then '_' else name[i])
    ensures forall i :: 0 <= i < |r| ==> !Problematic(r[i])
  {
    if name == [] then [] else [SanitizeChar(name[0])] + SanitizeFilename(name[1..])
  }

  /** Sanitizing a sanitized name changes nothing. */
  lemma SanitizeFilenameIdempotent(name: string)
    ensures SanitizeFilename(SanitizeFilename(name)) == SanitizeFilename(name)
  {
    var s := SanitizeFilename(name);
    assert forall i :: 0 <= i < |s| ==> SanitizeFilename(s)[i] == s[i];
  }

  /** The file NewDB opens for a channel: the channel name with each
      problematic character replaced by '_', followed by ".db". */
  function DatabaseFileName(channelName: string): (f: string)
    ensures |f| == |channelName| + 3 && f[|channelName|..] == ".db"
    ensures forall i :: 0 <= i < |channelName| ==> f[i] == (if Problematic(channelName[i]) then '_' else channelName[i])
  {
    var f := SanitizeFilename(channelName) + ".db";
    assert f[|f| - 3..] == ".db";
    f
  }

  // ---------------------------------------------------------------------------
  // The tables

  /** A row of the messages table: it has no thread columns. */
  datatype MessageRow = MessageRow(id: int, userId: string, text: string, kind: string, subtype: string,
                                   timestamp: string, date: int, filename: string)

  /** A row of messages_fts; its rowid is its key in `Tables.fts`. */
  datatype FtsRow = FtsRow(text: string, userName: string, userRealName: string, filename: string)

  /** The content of a store, plus `writes`, the number of write statements
      issued so far (the index the fault oracle is asked with). `nextId` is
      the AUTOINCREMENT counter. */
  datatype Tables = Tables(
    users: map<string, User>,
    channels: map<string, Channel>,
    messages: seq<MessageRow>,
    fts: map<int, FtsRow>,
    nextId: int,
    writes: nat)

  const EmptyTables: Tables := Tables(map[], map[], [], map[], 1, 0)

  /** The store's invariant: messages are numbered 1, 2, ... in insertion
      order (ids are never reused since nothing is deleted), the counter
      is one past the last id, and each full-text row belongs to a message
      and carries that message's text and file name. */
  ghost predicate Consistent(t: Tables) {
    && t.nextId == |t.messages| + 1
    && (forall i :: 0 <= i < |t.messages| ==> t.messages[i].id == i + 1)
    && (forall id :: id in t.fts ==>
          1 <= id <= |t.messages| &&
          t.fts[id].text == t.messages[id - 1].text &&
          t.fts[id].filename == t.messages[id - 1].filename)
  }

  function RowOf(id: int, m: Message): MessageRow {
    MessageRow(id, m.userId, m.text, m.kind, m.subtype, m.timestamp, m.date, m.filename)
  }

  /** The row messages_fts_insert selects from `users u WHERE u.id = new.user_id`. */
  function FtsEntry(m: Message, u: User): FtsRow {
    FtsRow(m.text, u.name, u.realName, m.filename)
  }

  /** INSERT OR REPLACE INTO users. */
  function PutUser(t: Tables, u: User): (r: Tables)
    ensures r.users.Keys == t.users.Keys + {u.id} && r.users[u.id] == u
    ensures r.channels == t.channels && r.messages == t.messages && r.fts == t.fts
  {
    t.(users := t.users[u.id := u])
  }

  /** INSERT OR REPLACE INTO channels. */
  function PutChannel(t: Tables, c: Channel): (r: Tables)
    ensures r.channels.Keys == t.channels.Keys + {c.id} && r.channels[c.id] == c
    ensures r.users == t.users && r.messages == t.messages && r.fts == t.fts
  {
    t.(channels := t.channels[c.id := c])
  }

  /** INSERT INTO messages, with the messages_fts_insert trigger in the same
      statement: the trigger's SELECT yields a row only when the author is in
      users. */
  function AppendMessage(t: Tables, m: Message): (r: Tables)
    ensures |r.messages| == |t.messages| + 1 && t.messages <= r.messages
    ensures r.messages[|t.messages|].id == t.nextId && r.nextId == t.nextId + 1
    ensures r.fts.Keys == if m.userId in t.users then t.fts.Keys + {t.nextId} else t.fts.Keys
    ensures r.users == t.users && r.channels == t.channels
  {
    var id := t.nextId;
    t.(messages := t.messages + [RowOf(id, m)],
       fts := if m.userId in t.users then t.fts[id := FtsEntry(m, t.users[m.userId])] else t.fts,
       nextId := id + 1)
  }

  /** The tables after a write statement, and whether it succeeded. */
  datatype Step = Step(tables: Tables, ok: bool)

  /** Issues one write statement whose effect is `after`: the oracle decides
      whether SQLite executes it; a failed statement changes nothing. */
  function Exec(t: Tables, fails: nat -> bool, after: Tables): Step {
    if fails(t.writes) then Step(t.(writes := t.writes + 1), false)
    else Step(after.(writes := t.writes + 1), true)
  }

  function TryPutUser(t: Tables, fails: nat -> bool, u: User): Step {
    Exec(t, fails, PutUser(t, u))
  }

  function TryPutChannel(t: Tables, fails: nat -> bool, c: Channel): Step {
    Exec(t, fails, PutChannel(t, c))
  }

  function TryAppendMessage(t: Tables, fails: nat -> bool, m: Message): Step {
    Exec(t, fails, AppendMessage(t, m))
  }

  /** InsertUser is an upsert keyed by id: afterwards the id maps to exactly
      the new user, other ids keep theirs, the count grows only for a new id,
      doing it again changes nothing, and messages and full-text rows are not
      touched (no trigger is defined on users). */
  lemma UpsertUser(t: Tables, u: User)
    ensures PutUser(t, u).users[u.id] == u
    ensures forall id :: id != u.id ==> (id in PutUser(t, u).users <==> id in t.users)
    ensures forall id :: id != u.id && id in t.users ==> PutUser(t, u).users[id] == t.users[id]
    ensures |PutUser(t, u).users| == if u.id in t.users then |t.users| else |t.users| + 1
    ensures PutUser(PutUser(t, u), u) == PutUser(t, u)
    ensures PutUser(t, u).fts == t.fts && PutUser(t, u).messages == t.messages
    ensures Consistent(t) ==> Consistent(PutUser(t, u))
  {
  }

  /** InsertChannel is the same kind of upsert on channels. */
  lemma UpsertChannel(t: Tables, c: Channel)
    ensures PutChannel(t, c).channels[c.id] == c
    ensures forall id :: id != c.id ==> (id in PutChannel(t, c).channels <==> id in t.channels)
    ensures forall id :: id != c.id && id in t.channels ==> PutChannel(t, c).channels[id] == t.channels[id]
    ensures |PutChannel(t, c).channels| == if c.id in t.channels then |t.channels| else |t.channels| + 1
    ensures PutChannel(PutChannel(t, c), c) == PutChannel(t, c)
    ensures PutChannel(t, c).users == t.users && PutChannel(t, c).fts == t.fts && PutChannel(t, c).messages == t.messages
    ensures Consistent(t) ==> Consistent(PutChannel(t, c))
  {
  }

  /** InsertMessage appends exactly one row, with no deduplication, under an
      id greater than every earlier one; a full-text row with that rowid is
      created exactly when the author is in users, and it carries the
      author's name and real name and the message's text and file name;
      earlier full-text rows are kept. */
  lemma AppendMessageFacts(t: Tables, m: Message)
    requires Consistent(t)
    ensures var t' := AppendMessage(t, m);
      && Consistent(t')
      && t'.messages == t.messages + [RowOf(t.nextId, m)]
      && (forall i :: 0 <= i < |t.messages| ==> t.messages[i].id < t.nextId)
      && (t.nextId in t'.fts <==> m.userId in t.users)
      && (m.userId in t.users ==> t'.fts[t.nextId] == FtsRow(m.text, t.users[m.userId].name, t.users[m.userId].realName, m.filename))
      && (forall id :: id in t.fts ==> id in t'.fts && t'.fts[id] == t.fts[id])
      && t'.users == t.users && t'.channels == t.channels
  {
    var t' := AppendMessage(t, m);
    assert t.nextId !in t.fts;
    forall id | id in t'.fts
      ensures 1 <= id <= |t'.messages|
      ensures t'.fts[id].text == t'.messages[id - 1].text
      ensures t'.fts[id].filename == t'.messages[id - 1].filename
    {
      if id != t.nextId {
        assert id in t.fts;
        assert t'.messages[id - 1] == t.messages[id - 1];
      }
    }
  }

  /** How many of `n` consecutive attempts, the first being attempt number
      `from`, succeed before the first one that `fails` rejects. */
  function Succeeding(fails: nat -> bool, from: nat, n: nat): (k: nat)
    ensures k <= n
    decreases n
  {
    if n == 0 || fails(from) then 0 else 1 + Succeeding(fails, from + 1, n - 1)
  }

  /** The attempts counted by Succeeding all succeed, and the one after
      them, if there is one, fails. */
  lemma {:induction false} SucceedingFacts(fails: nat -> bool, from: nat, n: nat)
    decreases n
    ensures forall w :: from <= w < from + Succeeding(fails, from, n) ==> !fails(w)
    ensures Succeeding(fails, from, n) < n ==> fails(from + Succeeding(fails, from, n))
  {
    if n > 0 && !fails(from) {
      SucceedingFacts(fails, from + 1, n - 1);
    }
  }

  /** Conversely, `i` attempts that all succeed are counted, and if the next
      one fails (or there is none) the count is exactly `i`. */
  lemma {:induction false} SucceedingAtLeast(fails: nat -> bool, from: nat, n: nat, i: nat)
    requires i <= n && forall w :: from <= w < from + i ==> !fails(w)
    decreases i
    ensures Succeeding(fails, from, n) >= i
    ensures i == n || fails(from + i) ==> Succeeding(fails, from, n) == i
  {
    if i > 0 {
      assert !fails(from);
      SucceedingAtLeast(fails, from + 1, n - 1, i - 1);
    }
  }

  lemma ExecConsistent(t: Tables, fails: nat -> bool, after: Tables)
    requires Consistent(t) && Consistent(after)
    ensures Consistent(Exec(t, fails, after).tables)
  {
  }

  // ---------------------------------------------------------------------------
  // SearchMessages

  /** The full-text engine: which query strings db.conn.Query accepts,
      which full-text rows a query matches, and what snippet() returns; which
      calls of rows.Next (numbered from 0) stop with an error instead of
      producing the next row (an error SQLite reports while stepping, such as
      a MATCH expression it rejects); and on which result rows rows.Scan fails
      (a column the driver cannot convert). */
  datatype FtsEngine = FtsEngine(
    accepts: string -> bool,
    matches: (string, FtsRow) -> bool,
    snippet: (string, FtsRow) -> string,
    stepFails: nat -> bool,
    scanFails: HitRow -> bool)

  /** StepFailed is reported only by the corrected SearchChecked. */
  datatype SearchError = QueryFailed | ScanFailed | StepFailed

  /** A row of the search statement: the message columns, the LEFT JOIN'ed
      author names (COALESCE'd to "") and the snippet. */
  datatype HitRow = HitRow(row: MessageRow, userName: string, userRealName: string, snippet: string)

  predicate IsHit(t: Tables, e: FtsEngine, q: string, r: MessageRow) {
    r.id in t.fts && e.matches(q, t.fts[r.id])
  }

  function HitOf(t: Tables, e: FtsEngine, q: string, r: MessageRow): HitRow
    requires r.id in t.fts
  {
    var name := if r.userId in t.users then t.users[r.userId].name else "";
    var realName := if r.userId in t.users then t.users[r.userId].realName else "";
    HitRow(r, name, realName, e.snippet(q, t.fts[r.id]))
  }

  /** The joined rows whose full-text row matches, in rowid order. */
  function Hits(t: Tables, e: FtsEngine, q: string, rows: seq<MessageRow>): seq<HitRow> {
    if rows == [] then []
    else
      var last := rows[|rows| - 1];
      Hits(t, e, q, rows[..|rows| - 1]) + (if IsHit(t, e, q, last) then [HitOf(t, e, q, last)] else [])
  }

  /** SQLite's LIMIT: a negative limit means no limit. */
  function Limit<T>(s: seq<T>, limit: int): (r: seq<T>)
    ensures r <= s
    ensures |r| == if 0 <= limit < |s| then limit else |s|
  {
    if 0 <= limit < |s| then s[..limit] else s
  }

  /** What SQLite returns for the search statement: an error when the MATCH
      expression is not accepted, otherwise the limited hits. A full-text
      query with no ORDER BY visits rows in rowid order. */
  function QueryRows(t: Tables, e: FtsEngine, q: string, limit: int): Option<seq<HitRow>> {
    if !e.accepts(q) then None else Some(Limit(Hits(t, e, q, t.messages), limit))
  }

  /** rows.Scan of one row: the id and message columns go to the embedded
      message, the file name to SearchResult's own Filename, the rank is the
      constant 0.0; the thread fields keep their zero values. */
  function ScanRow(h: HitRow): SearchResult {
    var r := h.row;
    SearchResult(
      Message(r.id, r.userId, r.text, r.kind, r.subtype, r.timestamp, r.date, "", "", "", 0, 0, "",
              h.userName, h.userRealName),
      0.0, h.snippet, r.filename)
  }

  function ScanAll(hs: seq<HitRow>): (rs: seq<SearchResult>)
    ensures |rs| == |hs|
    ensures forall k :: 0 <= k < |hs| ==> rs[k] == ScanRow(hs[k])
  {
    if hs == [] then [] else ScanAll(hs[..|hs| - 1]) + [ScanRow(hs[|hs| - 1])]
  }

  predicate AnyScanFails(e: FtsEngine, hs: seq<HitRow>) {
    exists k :: 0 <= k < |hs| && e.scanFails(hs[k])
  }

  /** The rows the `for rows.Next()` loop sees: those before the first call
      of rows.Next that stops with an error. */
  function RowsRead(e: FtsEngine, hs: seq<HitRow>): (r: seq<HitRow>)
    ensures r <= hs
    ensures forall k :: 0 <= k < |r| ==> !e.stepFails(k)
    ensures |r| < |hs| ==> e.stepFails(|r|)
  {
    SucceedingFacts(e.stepFails, 0, |hs|);
    hs[..Succeeding(e.stepFails, 0, |hs|)]
  }

  /** SearchMessages as a function of the tables: an error and no results
      when the query fails or a row read fails to scan; otherwise the rows
      read, with no error even when rows.Next stopped early, since the loop
      never consults rows.Err. */
  function Search(t: Tables, e: FtsEngine, q: string, limit: int): (r: Result<seq<SearchResult>, SearchError>)
    ensures r == Err(QueryFailed) <==> !e.accepts(q)
    ensures r != Err(StepFailed)
    ensures r.Ok? && 0 <= limit ==> |r.value| <= limit
  {
    match QueryRows(t, e, q, limit)
    case None => Err(QueryFailed)
    case Some(hs) =>
      var read := RowsRead(e, hs);
      if AnyScanFails(e, read) then Err(ScanFailed) else Ok(ScanAll(read))
  }

  /** No call of rows.Next among the first `n` stops with an error. */
  predicate StepsSucceed(e: FtsEngine, n: nat) {
    forall k :: 0 <= k < n ==> !e.stepFails(k)
  }

  lemma {:induction false} HitsSound(t: Tables, e: FtsEngine, q: string, rows: seq<MessageRow>)
    ensures forall k :: 0 <= k < |Hits(t, e, q, rows)| ==>
      Hits(t, e, q, rows)[k].row in rows &&
      IsHit(t, e, q, Hits(t, e, q, rows)[k].row) &&
      Hits(t, e, q, rows)[k] == HitOf(t, e, q, Hits(t, e, q, rows)[k].row)
  {
    if rows != [] {
      HitsSound(t, e, q, rows[..|rows| - 1]);
    }
  }

  lemma {:induction false} HitsComplete(t: Tables, e: FtsEngine, q: string, rows: seq<MessageRow>)
    ensures forall r :: r in rows && IsHit(t, e, q, r) ==> HitOf(t, e, q, r) in Hits(t, e, q, rows)
  {
    if rows != [] {
      HitsComplete(t, e, q, rows[..|rows| - 1]);
      assert rows == rows[..|rows| - 1] + [rows[|rows| - 1]];
    }
  }

  lemma {:induction false} HitsOrdered(t: Tables, e: FtsEngine, q: string, rows: seq<MessageRow>)
    requires forall i, j :: 0 <= i < j < |rows| ==> rows[i].id < rows[j].id
    ensures forall i, j :: 0 <= i < j < |Hits(t, e, q, rows)| ==>
      Hits(t, e, q, rows)[i].row.id < Hits(t, e, q, rows)[j].row.id
  {
    if rows != [] {
      var init := rows[..|rows| - 1];
      HitsOrdered(t, e, q, init);
      HitsSound(t, e, q, init);
      forall k | 0 <= k < |Hits(t, e, q, init)|
        ensures Hits(t, e, q, init)[k].row.id < rows[|rows| - 1].id
      {
        var i :| 0 <= i < |init| && init[i] == Hits(t, e, q, init)[k].row;
      }
    }
  }

  /** What SearchMessages promises: it fails only when the query is not
      accepted or a row read does not scan, and then returns no results;
      otherwise it returns the first results in increasing id order, each one
      a stored message whose full-text row matches, with rank 0, the snippet
      of that row, the author's current name and real name ("" when the
      author is not in users) and the message's file name. When no call of
      rows.Next fails there are min(limit, number of hits) of them (all hits
      when `limit` is negative); a failing rows.Next only cuts the list
      short. */
  lemma SearchContract(t: Tables, e: FtsEngine, q: string, limit: int)
    requires Consistent(t)
    ensures var hs := Limit(Hits(t, e, q, t.messages), limit);
      && (Search(t, e, q, limit) == Err(QueryFailed) <==> !e.accepts(q))
      && (Search(t, e, q, limit) == Err(ScanFailed) <==> e.accepts(q) && AnyScanFails(e, RowsRead(e, hs)))
      && (Search(t, e, q, limit).Ok? ==> Search(t, e, q, limit).value == ScanAll(RowsRead(e, hs)))
    ensures Search(t, e, q, limit).Ok? ==>
      var rs := Search(t, e, q, limit).value;
      var n := |Hits(t, e, q, t.messages)|;
      && (StepsSucceed(e, n) ==> |rs| == if 0 <= limit < n then limit else n)
      && (forall k :: 0 <= k < |rs| ==> FoundMessage(t, e, q, rs[k]))
      && (forall i, j :: 0 <= i < j < |rs| ==> rs[i].message.id < rs[j].message.id)
  {
    if e.accepts(q) {
      var all := Hits(t, e, q, t.messages);
      var hs := Limit(all, limit);
      var read := RowsRead(e, hs);
      ReadRowsFound(t, e, q, limit);
      if StepsSucceed(e, |all|) {
        SucceedingAtLeast(e.stepFails, 0, |hs|, |hs|);
      }
      if !AnyScanFails(e, read) {
        var rs := ScanAll(read);
        assert forall k :: 0 <= k < |rs| ==> rs[k] == ScanRow(read[k]);
      }
    }
  }

  /** Every row read describes a stored matching message, in increasing id
      order. */
  lemma ReadRowsFound(t: Tables, e: FtsEngine, q: string, limit: int)
    requires Consistent(t)
    ensures var read := RowsRead(e, Limit(Hits(t, e, q, t.messages), limit));
      && (forall k :: 0 <= k < |read| ==> FoundMessage(t, e, q, ScanRow(read[k])))
      && (forall i, j :: 0 <= i < j < |read| ==> read[i].row.id < read[j].row.id)
  {
    var all := Hits(t, e, q, t.messages);
    var hs := Limit(all, limit);
    var read := RowsRead(e, hs);
    HitsSound(t, e, q, t.messages);
    HitsOrdered(t, e, q, t.messages);
    forall k | 0 <= k < |read|
      ensures FoundMessage(t, e, q, ScanRow(read[k]))
    {
      assert read[k] == hs[k] == all[k];
      var i :| 0 <= i < |t.messages| && t.messages[i] == all[k].row;
      ScanHit(t, e, q, i);
    }
    forall i, j | 0 <= i < j < |read|
      ensures read[i].row.id < read[j].row.id
    {
      assert read[i] == all[i] && read[j] == all[j];
    }
  }

  /** The loop of SearchMessages reaches row `i` and cannot scan it. */
  lemma ScanFailsAt(e: FtsEngine, hs: seq<HitRow>, i: nat)
    requires i < |hs| && StepsSucceed(e, i + 1) && e.scanFails(hs[i])
    ensures AnyScanFails(e, RowsRead(e, hs))
  {
    SucceedingAtLeast(e.stepFails, 0, |hs|, i + 1);
    assert RowsRead(e, hs)[i] == hs[i];
  }

  /** The loop of SearchMessages leaves after `i` rows, at the end or at a
      failing rows.Next, having scanned them all. */
  lemma StopsAt(e: FtsEngine, hs: seq<HitRow>, i: nat)
    requires i <= |hs| && StepsSucceed(e, i) && (i == |hs| || e.stepFails(i))
    requires forall k :: 0 <= k < i ==> !e.scanFails(hs[k])
    ensures RowsRead(e, hs) == hs[..i] && !AnyScanFails(e, RowsRead(e, hs))
  {
    SucceedingAtLeast(e.stepFails, 0, |hs|, i);
  }

  /** A search result that describes stored message number `id`: its
      full-text row matches, the rank is 0, the snippet is that row's, the
      text, author and file name are the message's, and the author names are
      the current ones ("" when the author is not in users). */
  ghost predicate FoundMessage(t: Tables, e: FtsEngine, q: string, res: SearchResult) {
    var id := res.message.id;
    && 1 <= id <= |t.messages| && id in t.fts
    && e.matches(q, t.fts[id])
    && res.rank == 0.0
    && res.snippet == e.snippet(q, t.fts[id])
    && res.message.text == t.messages[id - 1].text
    && res.message.userId == t.messages[id - 1].userId
    && res.filename == t.messages[id - 1].filename
    && res.message.userName == (if res.message.userId in t.users then t.users[res.message.userId].name else "")
    && res.message.userRealName == (if res.message.userId in t.users then t.users[res.message.userId].realName else "")
  }

  lemma ScanHit(t: Tables, e: FtsEngine, q: string, i: int)
    requires Consistent(t) && 0 <= i < |t.messages| && IsHit(t, e, q, t.messages[i])
    ensures FoundMessage(t, e, q, ScanRow(HitOf(t, e, q, t.messages[i])))
  {
  }

  /** When every hit fits under the limit and no call of rows.Next fails,
      every stored message whose full-text row matches is found. */
  lemma SearchFindsEveryHit(t: Tables, e: FtsEngine, q: string, limit: int, i: int)
    requires limit < 0 || |Hits(t, e, q, t.messages)| <= limit
    requires StepsSucceed(e, |Hits(t, e, q, t.messages)|)
    requires 0 <= i < |t.messages| && IsHit(t, e, q, t.messages[i])
    requires Search(t, e, q, limit).Ok?
    ensures ScanRow(HitOf(t, e, q, t.messages[i])) in Search(t, e, q, limit).value
  {
    HitsComplete(t, e, q, t.messages);
    var hs := Hits(t, e, q, t.messages);
    SucceedingAtLeast(e.stepFails, 0, |hs|, |hs|);
    assert RowsRead(e, Limit(hs, limit)) == hs;
    var k :| 0 <= k < |hs| && hs[k] == HitOf(t, e, q, t.messages[i]);
    assert ScanAll(hs)[k] == ScanRow(hs[k]);
  }

  /** As written, a rows.Next error is taken for the end of the results: a
      query whose first step fails reports no results and no error, whether
      or not messages match it. */
  lemma StepErrorHidden(t: Tables, e: FtsEngine, q: string, limit: int)
    requires e.accepts(q) && e.stepFails(0)
    ensures Search(t, e, q, limit) == Ok([])
  {
    var read := RowsRead(e, Limit(Hits(t, e, q, t.messages), limit));
    assert |read| == 0;
  }

  /** With rows.Err consulted, the same query reports the step error. */
  lemma StepErrorReported(t: Tables, e: FtsEngine, q: string, limit: int)
    requires e.accepts(q) && e.stepFails(0)
    ensures SearchChecked(t, e, q, limit) == Err(StepFailed)
  {
    var read := RowsRead(e, Limit(Hits(t, e, q, t.messages), limit));
    assert |read| == 0;
  }

  /** SearchMessages with `if err := rows.Err(); err != nil` after the loop:
      a failed step is an error, not a shorter result. This includes the
      call after the last row, which would otherwise report the end. */
  function SearchChecked(t: Tables, e: FtsEngine, q: string, limit: int): Result<seq<SearchResult>, SearchError> {
    match QueryRows(t, e, q, limit)
    case None => Err(QueryFailed)
    case Some(hs) =>
      var read := RowsRead(e, hs);
      if AnyScanFails(e, read) then Err(ScanFailed)
      else if |read| < |hs| || e.stepFails(|hs|) then Err(StepFailed)
      else Ok(ScanAll(hs))
  }

  /** Consulting rows.Err, a successful search is never cut short: it returns
      all min(limit, number of hits) results, and a failing step is reported
      exactly when one of the |hs| + 1 calls of rows.Next fails, the last
      being the one that ends the rows. Where it succeeds it agrees with the
      search as written. */
  lemma SearchCheckedComplete(t: Tables, e: FtsEngine, q: string, limit: int)
    ensures var hs := Limit(Hits(t, e, q, t.messages), limit);
      && (SearchChecked(t, e, q, limit).Ok? ==> SearchChecked(t, e, q, limit).value == ScanAll(hs))
      && (SearchChecked(t, e, q, limit) == Err(StepFailed) <==>
            e.accepts(q) && !AnyScanFails(e, RowsRead(e, hs)) && !StepsSucceed(e, |hs| + 1))
      && (SearchChecked(t, e, q, limit).Ok? ==> Search(t, e, q, limit) == SearchChecked(t, e, q, limit))
  {
    var hs := Limit(Hits(t, e, q, t.messages), limit);
    var read := RowsRead(e, hs);
    if StepsSucceed(e, |hs|) {
      SucceedingAtLeast(e.stepFails, 0, |hs|, |hs|);
    }
    if |read| == |hs| {
      assert read == hs;
    }
  }

  // ---------------------------------------------------------------------------
  // The store object

  class Store {
    /** The database file, as NewDB names it. */
    const filename: string
    /** The fault oracle standing for SQLite's write errors. */
    const fails: nat -> bool
    var users: map<string, User>
    var channels: map<string, Channel>
    var messages: seq<MessageRow>
    var fts: map<int, FtsRow>
    var nextId: int
    var writes: nat

    function State(): Tables
      reads this
    {
      Tables(users, channels, messages, fts, nextId, writes)
    }

    ghost predicate Valid()
      reads this
    {
      Consistent(State())
    }

    /** NewDB on a fresh database file: createTables leaves every table
        empty. */
    constructor (channelName: string, fails: nat -> bool)
      ensures filename == DatabaseFileName(channelName)
      ensures this.fails == fails
      ensures State() == EmptyTables && Valid()
    {
      filename := DatabaseFileName(channelName);
      this.fails := fails;
      users, channels, messages, fts := map[], map[], [], map[];
      nextId, writes := 1, 0;
    }

    method InsertUser(u: User) returns (ok: bool)
      requires Valid()
      modifies this
      ensures Valid()
      ensures Step(State(), ok) == TryPutUser(old(State()), fails, u)
      ensures ok ==> users == old(users)[u.id := u]
      ensures !ok ==> users == old(users)
      ensures channels == old(channels) && messages == old(messages) && fts == old(fts) && nextId == old(nextId)
    {
      ok := !fails(writes);
      if ok {
        users := users[u.id := u];
      }
      writes := writes + 1;
      UpsertUser(old(State()), u);
      ExecConsistent(old(State()), fails, PutUser(old(State()), u));
    }

    method InsertChannel(c: Channel) returns (ok: bool)
      requires Valid()
      modifies this
      ensures Valid()
      ensures Step(State(), ok) == TryPutChannel(old(State()), fails, c)
      ensures ok ==> channels == old(channels)[c.id := c]
      ensures !ok ==> channels == old(channels)
      ensures users == old(users) && messages == old(messages) && fts == old(fts) && nextId == old(nextId)
    {
      ok := !fails(writes);
      if ok {
        channels := channels[c.id := c];
      }
      writes := writes + 1;
      UpsertChannel(old(State()), c);
      ExecConsistent(old(State()), fails, PutChannel(old(State()), c));
    }

    method InsertMessage(m: Message) returns (ok: bool)
      requires Valid()
      modifies this
      ensures Valid()
      ensures Step(State(), ok) == TryAppendMessage(old(State()), fails, m)
      ensures ok ==> messages == old(messages) + [RowOf(old(nextId), m)] && nextId == old(nextId) + 1
      ensures ok ==> fts == if m.userId in users then old(fts)[old(nextId) := FtsEntry(m, users[m.userId])] else old(fts)
      ensures !ok ==> messages == old(messages) && fts == old(fts) && nextId == old(nextId)
      ensures users == old(users) && channels == old(channels)
    {
      AppendMessageFacts(State(), m);
      ok := !fails(writes);
      if ok {
        var id := nextId;
        messages := messages + [RowOf(id, m)];
        // messages_fts_insert: one row per matching user
        if m.userId in users {
          fts := fts[id := FtsEntry(m, users[m.userId])];
        }
        nextId := id + 1;
      }
      writes := writes + 1;
      ExecConsistent(old(State()), fails, AppendMessage(old(State()), m));
    }

    /** SQLite runs the statement (QueryRows); the method steps through its
        rows and scans them into results one by one, leaving the loop when
        rows.Next stops, at the end or on an error alike. */
    method SearchMessages(e: FtsEngine, query: string, limit: int) returns (r: Result<seq<SearchResult>, SearchError>)
      ensures r == Search(State(), e, query, limit)
    {
      var rows := QueryRows(State(), e, query, limit);
      if rows.None? {
        return Err(QueryFailed);
      }
      var hs := rows.value;
      var results: seq<SearchResult> := [];
      var i := 0;
      while i < |hs|
        invariant 0 <= i <= |hs|
        invariant results == ScanAll(hs[..i])
        invariant forall k :: 0 <= k < i ==> !e.stepFails(k) && !e.scanFails(hs[k])
      {
        if e.stepFails(i) {
          break;
        }
        if e.scanFails(hs[i]) {
          ScanFailsAt(e, hs, i);
          return Err(ScanFailed);
        }
        assert hs[..i + 1][..i] == hs[..i];
        results := results + [ScanRow(hs[i])];
        i := i + 1;
      }
      StopsAt(e, hs, i);
      return Ok(results);
    }

    /** SELECT COUNT(*) FROM the named table. */
    function RowCount(table: string): int
      reads this
    {
      if table == "users" then |users| else if table == "channels" then |channels| else |messages|
    }

    /** GetStats reports the sizes of the three tables under their names. */
    method GetStats() returns (stats: map<string, int>)
      ensures stats == map["users" := |users|, "channels" := |channels|, "messages" := |messages|]
    {
      var tables := ["users", "channels", "messages"];
      stats := map[];
      for i := 0 to |tables|
        invariant forall k :: k in stats <==> k in tables[..i]
        invariant forall k :: k in stats ==> stats[k] == RowCount(k)
      {
        stats := stats[tables[i] := RowCount(tables[i])];
      }
      assert tables[..3] == tables;
    }
  }
}
