/** Ingestion of one channel (pkg/indexer/indexer.go): users, then channels,
    then every per-day message file, each record filtered and normalised
    before it is appended to the store.

    File reading, directory walking and JSON decoding are abstract: a file is
    given as what reading and decoding it produced, and the walk as the
    sequence of entries WalkDir visits, in its order. Each loop of the source
    is a method proved against a function of the store's tables. */
module Indexer {
  import opened GoLib
  import opened Models
  import opened Database

  // ---------------------------------------------------------------------------
  // Decoded records

  /** A decoded JSON value, as far as the core looks at it: a string or
      anything else. */
  datatype JValue = JStr(s: string) | JOther

  /** A raw record that did or did not decode as a JSON object. */
  datatype RawRecord = NotObject | Object(fields: map<string, JValue>)

  /** `v, ok := fields[key].(string)`. */
  function StringField(fields: map<string, JValue>, key: string): Option<string> {
    if key in fields && fields[key].JStr? then Some(fields[key].s) else None
  }

  /** `v, _ := fields[key].(string)`: the string, or "". */
  function StringOrEmpty(fields: map<string, JValue>, key: string): string {
    match StringField(fields, key)
    case Some(s) => s
    case None => ""
  }

  // ---------------------------------------------------------------------------
  // parseSlackTimestamp

  /** Splits on "."; with exactly two parts the first must be a base-10
      int64, which is the result in seconds. The fraction is not looked at. */
  function ParseSlackTimestamp(ts: string): (r: Option<int>)
    ensures r.Some? ==> MinInt64 <= r.value <= MaxInt64
    ensures r.Some? ==> Count(ts, '.') == 1
  {
    var parts := Split(ts, '.');
    if |parts| != 2 then None else ParseInt64(parts[0])
  }

  /** A token with one dot parses exactly when the part before the dot is an
      int64, to that number, whatever follows the dot. */
  lemma SlackTimestampParts(secs: string, frac: string)
    requires '.' !in secs && '.' !in frac
    ensures ParseSlackTimestamp(secs + "." + frac) == ParseInt64(secs)
  {
    SplitAfterPrefix(secs, frac, '.');
    SplitWithoutSeparator(frac, '.');
    assert secs + "." + frac == secs + ['.'] + frac;
  }

  lemma {:induction false} FormatNatHasNoDot(n: nat)
    ensures '.' !in FormatNat(n)
  {
    var s := FormatNat(n);
    assert forall i :: 0 <= i < |s| ==> IsDigit(s[i]);
  }

  /** A timestamp made of any int64 seconds and any dot-free fraction reads
      back as those seconds. */
  lemma SlackTimestampRoundTrip(n: int, frac: string)
    requires MinInt64 <= n <= MaxInt64 && '.' !in frac
    ensures ParseSlackTimestamp(FormatInt(n) + "." + frac) == Some(n)
  {
    if n < 0 {
      FormatNatHasNoDot(-n);
      assert FormatInt(n) == "-" + FormatNat(-n);
    } else {
      FormatNatHasNoDot(n);
    }
    SlackTimestampParts(FormatInt(n), frac);
    ParseFormatInt(n);
  }

  // ---------------------------------------------------------------------------
  // The per-record policy of processMessageFile

  datatype SkipReason = Malformed | BotMessage | NoUser | NoText | BlankText

  /** What the loop body does with one record. */
  datatype Decision = Accept(message: Message) | Skip(reason: SkipReason)

  /** The record's time: its parsed "ts" when that is a non-empty string
      that parses, the file's date otherwise. */
  function MessageTime(fields: map<string, JValue>, fileDate: int): int {
    var ts := StringOrEmpty(fields, "ts");
    if ts != "" && ParseSlackTimestamp(ts).Some? then ParseSlackTimestamp(ts).value else fileDate
  }

  function Classify(rec: RawRecord, filename: string, fileDate: int): (d: Decision)
    ensures d.Accept? ==> d.message.filename == filename && TrimSpace(d.message.text) != ""
    ensures d.Accept? ==> d.message.subtype != "bot_message" && rec.Object?
  {
    match rec
    case NotObject => Skip(Malformed)
    case Object(fields) =>
      if StringField(fields, "subtype") == Some("bot_message") then Skip(BotMessage)
      else if StringField(fields, "user").None? then Skip(NoUser)
      else if StringField(fields, "text").None? then Skip(NoText)
      else if TrimSpace(StringField(fields, "text").value) == "" then Skip(BlankText)
      else
        Accept(NewMessage(
          StringField(fields, "user").value,
          StringField(fields, "text").value,
          StringOrEmpty(fields, "type"),
          StringOrEmpty(fields, "subtype"),
          StringOrEmpty(fields, "ts"),
          MessageTime(fields, fileDate),
          filename))
  }

  /** A record is kept exactly when it is an object whose "subtype" is not
      the string "bot_message", whose "user" is a string (possibly empty) and
      whose "text" is a string that is not all white space. */
  lemma ClassifyAcceptsIff(rec: RawRecord, filename: string, fileDate: int)
    ensures Classify(rec, filename, fileDate).Accept? <==>
      && rec.Object?
      && StringField(rec.fields, "subtype") != Some("bot_message")
      && StringField(rec.fields, "user").Some?
      && StringField(rec.fields, "text").Some?
      && !AllSpace(StringField(rec.fields, "text").value)
  {
    if rec.Object? && StringField(rec.fields, "text").Some? {
      TrimSpaceEmptyIff(StringField(rec.fields, "text").value);
    }
  }

  /** A kept record's message: user and text copied as they are (the text
      untrimmed), type, subtype and ts copied or "" when absent or not
      strings, the date from "ts" or else the file's date, the file's base
      name, and no thread data. */
  lemma ClassifiedMessage(rec: RawRecord, filename: string, fileDate: int)
    requires Classify(rec, filename, fileDate).Accept?
    ensures var m := Classify(rec, filename, fileDate).message;
      && Some(m.userId) == StringField(rec.fields, "user")
      && Some(m.text) == StringField(rec.fields, "text")
      && m.kind == StringOrEmpty(rec.fields, "type")
      && m.subtype == StringOrEmpty(rec.fields, "subtype")
      && m.subtype != "bot_message"
      && m.timestamp == StringOrEmpty(rec.fields, "ts")
      && (ParseSlackTimestamp(m.timestamp).Some? ==> m.date == ParseSlackTimestamp(m.timestamp).value)
      && (ParseSlackTimestamp(m.timestamp).None? ==> m.date == fileDate)
      && m.filename == filename
      && m.threadTs == "" && m.replyCount == 0
  {
    assert ParseSlackTimestamp("") == None;
  }

  /** The messages the loop tries to insert, in record order. */
  function Accepted(recs: seq<RawRecord>, filename: string, fileDate: int): seq<Message> {
    if recs == [] then []
    else
      var d := Classify(recs[0], filename, fileDate);
      (if d.Accept? then [d.message] else []) + Accepted(recs[1..], filename, fileDate)
  }

  /** Every message inserted from a file is a human message with text: none
      is a bot message, none has blank text, and all carry the file's name. */
  lemma {:induction false} AcceptedAreHuman(recs: seq<RawRecord>, filename: string, fileDate: int)
    ensures forall m :: m in Accepted(recs, filename, fileDate) ==>
      !AllSpace(m.text) && m.subtype != "bot_message" && m.filename == filename
  {
    if recs != [] {
      AcceptedAreHuman(recs[1..], filename, fileDate);
      if Classify(recs[0], filename, fileDate).Accept? {
        ClassifyAcceptsIff(recs[0], filename, fileDate);
        ClassifiedMessage(recs[0], filename, fileDate);
      }
    }
  }

  // ---------------------------------------------------------------------------
  // Inserting a file's messages

  /** The insert calls of one file, in order, stopping at the first that
      fails. */
  function InsertAll(t: Tables, fails: nat -> bool, ms: seq<Message>): (s: Step)
    decreases |ms|
    ensures s.tables.users == t.users && s.tables.channels == t.channels
    ensures t.messages <= s.tables.messages
    ensures t.writes <= s.tables.writes <= t.writes + |ms|
  {
    if ms == [] then Step(t, true)
    else
      var s := TryAppendMessage(t, fails, ms[0]);
      if !s.ok then s else InsertAll(s.tables, fails, ms[1..])
  }

  lemma AcceptedUnfold(recs: seq<RawRecord>, i: int, filename: string, fileDate: int)
    requires 0 <= i < |recs|
    ensures var d := Classify(recs[i], filename, fileDate);
      Accepted(recs[i..], filename, fileDate) ==
        if d.Accept? then [d.message] + Accepted(recs[i + 1..], filename, fileDate)
        else Accepted(recs[i + 1..], filename, fileDate)
  {
    assert recs[i..][0] == recs[i] && recs[i..][1..] == recs[i + 1..];
    assert [] + Accepted(recs[i + 1..], filename, fileDate) == Accepted(recs[i + 1..], filename, fileDate);
  }

  lemma InsertAllUnfold(t: Tables, fails: nat -> bool, m: Message, rest: seq<Message>)
    ensures InsertAll(t, fails, [m] + rest) ==
      (var s := TryAppendMessage(t, fails, m); if !s.ok then s else InsertAll(s.tables, fails, rest))
  {
    assert ([m] + rest)[0] == m && ([m] + rest)[1..] == rest;
  }

  /** Rows appended to the messages table that are human messages and are
      indexed as the trigger does it. */
  ghost predicate HumanRow(r: MessageRow) {
    !AllSpace(r.text) && r.subtype != "bot_message"
  }

  ghost predicate Indexed(t: Tables, r: MessageRow) {
    && (r.id in t.fts <==> r.userId in t.users)
    && (r.userId in t.users ==>
          t.fts[r.id] == FtsRow(r.text, t.users[r.userId].name, t.users[r.userId].realName, r.filename))
  }

  /** `t'` is `t` with messages appended and nothing else changed: users,
      channels, earlier messages and earlier full-text rows are kept, new
      full-text rows belong to new messages, and each new message is indexed
      exactly when its author is a known user. */
  ghost predicate Appended(t: Tables, t': Tables) {
    && Consistent(t')
    && t'.users == t.users && t'.channels == t.channels
    && |t.messages| <= |t'.messages| && t'.messages[..|t.messages|] == t.messages
    && (forall id :: id in t.fts ==> id in t'.fts && t'.fts[id] == t.fts[id])
    && (forall id :: id in t'.fts && id !in t.fts ==> id > |t.messages|)
    && (forall i :: |t.messages| <= i < |t'.messages| ==> Indexed(t', t'.messages[i]))
  }

  lemma AppendedTransitive(t1: Tables, t2: Tables, t3: Tables)
    requires Consistent(t1) && Appended(t1, t2) && Appended(t2, t3)
    ensures Appended(t1, t3)
  {
    assert t3.messages[..|t2.messages|][..|t1.messages|] == t3.messages[..|t1.messages|];
    forall i | |t1.messages| <= i < |t3.messages|
      ensures Indexed(t3, t3.messages[i])
    {
      if i < |t2.messages| {
        assert t3.messages[i] == t2.messages[i];
        assert t2.messages[i].id == i + 1;
      }
    }
  }

  lemma AppendedReflexive(t: Tables)
    requires Consistent(t)
    ensures Appended(t, t)
  {
    assert t.messages[..|t.messages|] == t.messages;
  }

  /** One insert call: on success the row is appended and indexed by the
      trigger; either way nothing else changes. */
  lemma TryAppendAppends(t: Tables, fails: nat -> bool, m: Message)
    requires Consistent(t)
    ensures Appended(t, TryAppendMessage(t, fails, m).tables)
    ensures TryAppendMessage(t, fails, m).tables.writes == t.writes + 1
    ensures TryAppendMessage(t, fails, m).ok <==> !fails(t.writes)
    ensures TryAppendMessage(t, fails, m).ok ==>
      TryAppendMessage(t, fails, m).tables.messages == t.messages + [RowOf(t.nextId, m)]
    ensures !TryAppendMessage(t, fails, m).ok ==>
      TryAppendMessage(t, fails, m).tables.messages == t.messages
  {
    AppendMessageFacts(t, m);
    if !fails(t.writes) {
      var t' := TryAppendMessage(t, fails, m).tables;
      assert t'.messages[..|t.messages|] == t.messages;
    } else {
      AppendedReflexive(t);
    }
  }

  /** The inserts of a file succeed one after the other until the first one
      the store fails: the first `k` messages, `k` being the number of writes
      the store runs before its first failure, are appended as rows numbered
      from the old counter, the records after a failure are not inserted, and
      the earlier ones stay. */
  lemma {:induction false} InsertAllFacts(t: Tables, fails: nat -> bool, ms: seq<Message>)
    requires Consistent(t)
    decreases |ms|
    ensures var s := InsertAll(t, fails, ms);
      var k := Succeeding(fails, t.writes, |ms|);
      && Appended(t, s.tables)
      && |s.tables.messages| == |t.messages| + k
      && (s.ok <==> k == |ms|)
      && (forall j :: 0 <= j < k ==> s.tables.messages[|t.messages| + j] == RowOf(t.nextId + j, ms[j]))
      && s.tables.writes == t.writes + (if s.ok then k else k + 1)
  {
    if ms == [] {
      AppendedReflexive(t);
    } else {
      var s1 := TryAppendMessage(t, fails, ms[0]);
      TryAppendAppends(t, fails, ms[0]);
      if s1.ok {
        var t1 := s1.tables;
        InsertAllFacts(t1, fails, ms[1..]);
        var s := InsertAll(t1, fails, ms[1..]);
        AppendedTransitive(t, t1, s.tables);
        var k := Succeeding(fails, t.writes, |ms|);
        forall j | 0 <= j < k
          ensures s.tables.messages[|t.messages| + j] == RowOf(t.nextId + j, ms[j])
        {
          if j == 0 {
            assert s.tables.messages[..|t1.messages|] == t1.messages;
            assert t1.messages[|t.messages|] == RowOf(t.nextId, ms[0]);
          } else {
            assert ms[1..][j - 1] == ms[j];
          }
        }
      }
    }
  }

  // ---------------------------------------------------------------------------
  // processMessageFile

  /** What reading and decoding a message file produced. */
  datatype FileContent = Unreadable | NotJsonArray | JsonArray(records: seq<RawRecord>)

  datatype FileError = ReadFailed | ParseFailed | BadDateName | InsertFailed

  datatype FileStep = FileStep(tables: Tables, err: Option<FileError>)

  /** The date in a file name "YYYY-MM-DD.json". */
  function FileDate(filename: string): Option<int> {
    ParseDate(TrimSuffix(filename, ".json"))
  }

  function ProcessFile(t: Tables, fails: nat -> bool, content: FileContent, filename: string): (fs: FileStep)
    ensures fs.tables.users == t.users && fs.tables.channels == t.channels
    ensures t.messages <= fs.tables.messages && t.writes <= fs.tables.writes
  {
    match content
    case Unreadable => FileStep(t, Some(ReadFailed))
    case NotJsonArray => FileStep(t, Some(ParseFailed))
    case JsonArray(recs) =>
      match FileDate(filename)
      case None => FileStep(t, Some(BadDateName))
      case Some(d) =>
        var s := InsertAll(t, fails, Accepted(recs, filename, d));
        FileStep(s.tables, if s.ok then None else Some(InsertFailed))
  }

  /** A file that cannot be read, is not a JSON array or is not named after a
      date inserts nothing and is an error; otherwise its accepted messages
      are appended in order, all of them when no insert fails, and otherwise
      those before the failing one, with an error. Every appended row is a
      human message with text, from this file. */
  lemma ProcessFileContract(t: Tables, fails: nat -> bool, content: FileContent, filename: string)
    requires Consistent(t)
    ensures var fs := ProcessFile(t, fails, content, filename);
      && Appended(t, fs.tables)
      && (forall i :: |t.messages| <= i < |fs.tables.messages| ==>
            HumanRow(fs.tables.messages[i]) && fs.tables.messages[i].filename == filename)
      && (!content.JsonArray? || FileDate(filename).None? ==> fs.tables == t && fs.err.Some?)
      && (content.JsonArray? && FileDate(filename).Some? ==>
            var acc := Accepted(content.records, filename, FileDate(filename).value);
            var k := Succeeding(fails, t.writes, |acc|);
            && |fs.tables.messages| == |t.messages| + k
            && (forall j :: 0 <= j < k ==> fs.tables.messages[|t.messages| + j] == RowOf(t.nextId + j, acc[j]))
            && (fs.err.None? <==> k == |acc|)
            && (fs.err.Some? ==> fs.err == Some(InsertFailed)))
  {
    if content.JsonArray? && FileDate(filename).Some? {
      var recs, d := content.records, FileDate(filename).value;
      InsertAllFacts(t, fails, Accepted(recs, filename, d));
      InsertedRowsHuman(t, fails, recs, filename, d);
      var rows := ProcessFile(t, fails, content, filename).tables.messages;
      assert rows == InsertAll(t, fails, Accepted(recs, filename, d)).tables.messages;
      assert forall i :: |t.messages| <= i < |rows| ==> HumanRow(rows[i]) && rows[i].filename == filename;
    } else {
      AppendedReflexive(t);
    }
  }

  /** The rows inserted from a file's accepted records are human messages
      from that file. */
  lemma InsertedRowsHuman(t: Tables, fails: nat -> bool, recs: seq<RawRecord>, filename: string, d: int)
    requires Consistent(t)
    ensures var rows := InsertAll(t, fails, Accepted(recs, filename, d)).tables.messages;
      forall i :: |t.messages| <= i < |rows| ==> HumanRow(rows[i]) && rows[i].filename == filename
  {
    var acc := Accepted(recs, filename, d);
    InsertedRows(t, fails, acc);
    AcceptedAreHuman(recs, filename, d);
    NewRowsHuman(t.messages, InsertAll(t, fails, acc).tables.messages, acc, filename, t.nextId);
  }

  /** The rows a file's inserts add are the first messages, numbered on. */
  lemma InsertedRows(t: Tables, fails: nat -> bool, ms: seq<Message>)
    requires Consistent(t)
    ensures var rows := InsertAll(t, fails, ms).tables.messages;
      && |t.messages| <= |rows| <= |t.messages| + |ms|
      && forall j :: 0 <= j < |rows| - |t.messages| ==> rows[|t.messages| + j] == RowOf(t.nextId + j, ms[j])
  {
    InsertAllFacts(t, fails, ms);
  }

  lemma NewRowsHuman(old_: seq<MessageRow>, rows: seq<MessageRow>, acc: seq<Message>, filename: string, id: int)
    requires |old_| <= |rows| <= |old_| + |acc|
    requires forall j :: 0 <= j < |rows| - |old_| ==> rows[|old_| + j] == RowOf(id + j, acc[j])
    requires forall m :: m in acc ==> !AllSpace(m.text) && m.subtype != "bot_message" && m.filename == filename
    ensures forall i :: |old_| <= i < |rows| ==> HumanRow(rows[i]) && rows[i].filename == filename
  {
    forall i | |old_| <= i < |rows|
      ensures HumanRow(rows[i]) && rows[i].filename == filename
    {
      var j := i - |old_|;
      assert rows[|old_| + j] == RowOf(id + j, acc[j]);
      assert acc[j] in acc;
    }
  }

  /** Re-ingesting a file appends its accepted messages again: the message
      count grows by the number of accepted records each time, with no
      deduplication. */
  lemma ReingestDuplicates(t: Tables, fails: nat -> bool, recs: seq<RawRecord>, filename: string)
    requires Consistent(t) && FileDate(filename).Some?
    requires ProcessFile(t, fails, JsonArray(recs), filename).err.None?
    requires ProcessFile(ProcessFile(t, fails, JsonArray(recs), filename).tables, fails, JsonArray(recs), filename).err.None?
    ensures var n := |Accepted(recs, filename, FileDate(filename).value)|;
      var t2 := ProcessFile(ProcessFile(t, fails, JsonArray(recs), filename).tables, fails, JsonArray(recs), filename).tables;
      |t2.messages| == |t.messages| + 2 * n
  {
    ProcessFileContract(t, fails, JsonArray(recs), filename);
    ProcessFileContract(ProcessFile(t, fails, JsonArray(recs), filename).tables, fails, JsonArray(recs), filename);
  }

  // ---------------------------------------------------------------------------
  // processMessageFiles: the two walks

  /** An entry visited by WalkDir: an error it reports, a directory, or a
      file with what reading and decoding it would produce. */
  datatype WalkEntry = WalkError | Dir(path: string) | File(path: string, content: FileContent)

  /** Only non-directory paths ending in ".json" are message files. */
  predicate IsMessageFile(e: WalkEntry) {
    e.File? && HasSuffix(e.path, ".json")
  }

  /** The printed "Warning: failed to process" line. */
  datatype Warning = Warning(filename: string, error: FileError)

  /** The first walk: message files counted before the first walk error, and
      whether there was one. */
  datatype Counted = Counted(files: nat, failed: bool)

  function CountFiles(entries: seq<WalkEntry>): (c: Counted)
    ensures c.files <= MessageFiles(entries)
    ensures c.failed ==> exists i :: 0 <= i < |entries| && entries[i].WalkError?
  {
    if entries == [] then Counted(0, false)
    else if entries[0].WalkError? then Counted(0, true)
    else
      var c := CountFiles(entries[1..]);
      if IsMessageFile(entries[0]) then c.(files := c.files + 1) else c
  }

  /** The second walk: the tables, the files that returned no error, the
      warnings for those that did, and whether a walk error stopped it. */
  datatype Walked = Walked(tables: Tables, processed: nat, warnings: seq<Warning>, failed: bool)

  function WalkFiles(t: Tables, fails: nat -> bool, entries: seq<WalkEntry>): (w: Walked)
    decreases |entries|
    ensures w.processed + |w.warnings| <= MessageFiles(entries)
    ensures w.tables.users == t.users && w.tables.channels == t.channels
    ensures t.messages <= w.tables.messages
  {
    if entries == [] then Walked(t, 0, [], false)
    else if entries[0].WalkError? then Walked(t, 0, [], true)
    else if !IsMessageFile(entries[0]) then WalkFiles(t, fails, entries[1..])
    else
      var name := Base(entries[0].path);
      var fs := ProcessFile(t, fails, entries[0].content, name);
      var w := WalkFiles(fs.tables, fails, entries[1..]);
      if fs.err.None? then w.(processed := w.processed + 1)
      else w.(warnings := [Warning(name, fs.err.value)] + w.warnings)
  }

  lemma CountUnfold(entries: seq<WalkEntry>, i: int)
    requires 0 <= i < |entries|
    ensures CountFiles(entries[i..]) ==
      if entries[i].WalkError? then Counted(0, true)
      else
        var c := CountFiles(entries[i + 1..]);
        if IsMessageFile(entries[i]) then c.(files := c.files + 1) else c
  {
    assert entries[i..][0] == entries[i] && entries[i..][1..] == entries[i + 1..];
  }

  lemma WalkUnfold(t: Tables, fails: nat -> bool, entries: seq<WalkEntry>, i: int)
    requires 0 <= i < |entries|
    ensures WalkFiles(t, fails, entries[i..]) ==
      if entries[i].WalkError? then Walked(t, 0, [], true)
      else if !IsMessageFile(entries[i]) then WalkFiles(t, fails, entries[i + 1..])
      else
        var name := Base(entries[i].path);
        var fs := ProcessFile(t, fails, entries[i].content, name);
        var w := WalkFiles(fs.tables, fails, entries[i + 1..]);
        if fs.err.None? then w.(processed := w.processed + 1)
        else w.(warnings := [Warning(name, fs.err.value)] + w.warnings)
  {
    assert entries[i..][0] == entries[i] && entries[i..][1..] == entries[i + 1..];
  }

  /** The rest of a walk, after `done` files were processed and `warned`
      warnings were printed. */
  function Resume(w: Walked, done: nat, warned: seq<Warning>): Walked {
    w.(processed := done + w.processed, warnings := warned + w.warnings)
  }

  lemma ResumeShift(w: Walked, err: Option<FileError>, name: string, done: nat, warned: seq<Warning>)
    requires err.None? ==> done > 0
    requires err.Some? ==> |warned| > 0 && warned[|warned| - 1] == Warning(name, err.value)
    ensures err.None? ==> Resume(w, done, warned) == Resume(w.(processed := w.processed + 1), done - 1, warned)
    ensures err.Some? ==>
      Resume(w, done, warned) == Resume(w.(warnings := [Warning(name, err.value)] + w.warnings), done, warned[..|warned| - 1])
  {
    if err.Some? {
      assert warned == warned[..|warned| - 1] + [Warning(name, err.value)];
      assert warned + w.warnings == warned[..|warned| - 1] + ([Warning(name, err.value)] + w.warnings);
    }
  }

  datatype IndexError =
    | UsersUnreadable | UsersUnparsable | UserInsertFailed(userId: string)
    | ChannelsUnreadable | ChannelsUnparsable | ChannelInsertFailed(channelId: string)
    | CountFailed | WalkFailed

  /** processMessageFiles as a function: the tables, how far totalFiles and
      processedFiles advance, the warnings printed, and the error returned. */
  datatype FilesOutcome = FilesOutcome(tables: Tables, total: nat, processed: nat, warnings: seq<Warning>, err: Option<IndexError>)

  function FilesSpec(t: Tables, fails: nat -> bool, entries: seq<WalkEntry>): FilesOutcome {
    var c := CountFiles(entries);
    if c.failed then FilesOutcome(t, c.files, 0, [], Some(CountFailed))
    else
      var w := WalkFiles(t, fails, entries);
      FilesOutcome(w.tables, c.files, w.processed, w.warnings, if w.failed then Some(WalkFailed) else None)
  }

  function MessageFiles(entries: seq<WalkEntry>): nat {
    if entries == [] then 0 else (if IsMessageFile(entries[0]) then 1 else 0) + MessageFiles(entries[1..])
  }

  /** The second walk never stops at a file's error: if WalkDir reports no
      error, every message file is processed, and it counts as processed
      exactly when it returned no error. The walk only appends human messages
      from message files, indexed by the trigger, and leaves users and
      channels alone. */
  lemma {:induction false} WalkFacts(t: Tables, fails: nat -> bool, entries: seq<WalkEntry>)
    requires Consistent(t)
    decreases |entries|
    ensures var w := WalkFiles(t, fails, entries);
      && Appended(t, w.tables)
      && (forall i :: |t.messages| <= i < |w.tables.messages| ==> HumanRow(w.tables.messages[i]))
      && (!CountFiles(entries).failed ==>
            !w.failed && w.processed + |w.warnings| == CountFiles(entries).files == MessageFiles(entries))
  {
    if entries == [] {
      AppendedReflexive(t);
    } else if entries[0].WalkError? {
      AppendedReflexive(t);
    } else if !IsMessageFile(entries[0]) {
      WalkFacts(t, fails, entries[1..]);
    } else {
      var name := Base(entries[0].path);
      var fs := ProcessFile(t, fails, entries[0].content, name);
      ProcessFileContract(t, fails, entries[0].content, name);
      WalkFacts(fs.tables, fails, entries[1..]);
      var w := WalkFiles(fs.tables, fails, entries[1..]);
      AppendedTransitive(t, fs.tables, w.tables);
      forall i | |t.messages| <= i < |w.tables.messages|
        ensures HumanRow(w.tables.messages[i])
      {
        if i < |fs.tables.messages| {
          assert w.tables.messages[..|fs.tables.messages|] == fs.tables.messages;
          assert w.tables.messages[i] == fs.tables.messages[i];
        }
      }
    }
  }

  /** The error processMessageFile returns for a file whatever the store
      does: it cannot be read, it is not a JSON array, or its name is not a
      date. */
  function FileProblem(content: FileContent, filename: string): Option<FileError> {
    if content.Unreadable? then Some(ReadFailed)
    else if content.NotJsonArray? then Some(ParseFailed)
    else if FileDate(filename).None? then Some(BadDateName)
    else None
  }

  /** A file with a problem gets exactly that error; any other file gets no
      error or, when a write fails, InsertFailed. When no write fails from
      here on, the error is exactly the file's problem and the store's write
      counter does not go back. */
  lemma ProcessFileErrors(t: Tables, fails: nat -> bool, content: FileContent, filename: string)
    requires Consistent(t)
    ensures var fs := ProcessFile(t, fails, content, filename);
      && fs.tables.writes >= t.writes
      && (FileProblem(content, filename).Some? ==> fs.err == FileProblem(content, filename))
      && (FileProblem(content, filename).None? ==> fs.err == None || fs.err == Some(InsertFailed))
      && (NoFaultsFrom(fails, t.writes) ==> fs.err == FileProblem(content, filename))
  {
    if content.JsonArray? && FileDate(filename).Some? {
      var acc := Accepted(content.records, filename, FileDate(filename).value);
      InsertAllFacts(t, fails, acc);
      if NoFaultsFrom(fails, t.writes) {
        SucceedingAtLeast(fails, t.writes, |acc|, |acc|);
      }
    }
  }

  /** No write statement from number `from` on fails. */
  ghost predicate NoFaultsFrom(fails: nat -> bool, from: nat) {
    forall w: nat :: from <= w ==> !fails(w)
  }

  /** The warnings for files with a problem, in walk order, up to the first
      walk error. */
  function ProblemWarnings(entries: seq<WalkEntry>): seq<Warning> {
    if entries == [] || entries[0].WalkError? then []
    else
      var rest := ProblemWarnings(entries[1..]);
      if !IsMessageFile(entries[0]) then rest
      else
        var name := Base(entries[0].path);
        match FileProblem(entries[0].content, name)
        case Some(err) => [Warning(name, err)] + rest
        case None => rest
  }

  /** The message files without a problem, up to the first walk error. */
  function Processable(entries: seq<WalkEntry>): nat {
    if entries == [] || entries[0].WalkError? then 0
    else
      (if IsMessageFile(entries[0]) && FileProblem(entries[0].content, Base(entries[0].path)).None? then 1 else 0)
      + Processable(entries[1..])
  }

  /** The warnings printed, apart from InsertFailed ones. */
  function NotInsertFailures(ws: seq<Warning>): seq<Warning> {
    if ws == [] then []
    else (if ws[0].error != InsertFailed then [ws[0]] else []) + NotInsertFailures(ws[1..])
  }

  function InsertFailures(ws: seq<Warning>): nat {
    if ws == [] then 0 else (if ws[0].error == InsertFailed then 1 else 0) + InsertFailures(ws[1..])
  }

  /** Which files the second walk counts and warns about: every file with a
      problem is warned about with that problem, in walk order; every other
      message file is counted as processed, unless a write failed for it, in
      which case it is warned about with InsertFailed. */
  lemma {:induction false} WalkOutcomes(t: Tables, fails: nat -> bool, entries: seq<WalkEntry>)
    requires Consistent(t)
    decreases |entries|
    ensures var w := WalkFiles(t, fails, entries);
      && NotInsertFailures(w.warnings) == ProblemWarnings(entries)
      && w.processed + InsertFailures(w.warnings) == Processable(entries)
  {
    if entries != [] && !entries[0].WalkError? {
      if !IsMessageFile(entries[0]) {
        WalkOutcomes(t, fails, entries[1..]);
      } else {
        var name := Base(entries[0].path);
        var fs := ProcessFile(t, fails, entries[0].content, name);
        ProcessFileContract(t, fails, entries[0].content, name);
        ProcessFileErrors(t, fails, entries[0].content, name);
        WalkOutcomes(fs.tables, fails, entries[1..]);
        var w := WalkFiles(fs.tables, fails, entries[1..]);
        if fs.err.Some? {
          var ws := [Warning(name, fs.err.value)] + w.warnings;
          assert ws[1..] == w.warnings;
        }
      }
    }
  }

  /** When no write fails, no file is warned about with InsertFailed: the
      warnings are exactly the files with a problem, in walk order, and every
      other message file counts as processed. */
  lemma {:induction false} WalkWithoutFaults(t: Tables, fails: nat -> bool, entries: seq<WalkEntry>)
    requires Consistent(t) && NoFaultsFrom(fails, t.writes)
    decreases |entries|
    ensures var w := WalkFiles(t, fails, entries);
      && w.warnings == ProblemWarnings(entries)
      && w.processed == Processable(entries)
  {
    if entries != [] && !entries[0].WalkError? {
      if !IsMessageFile(entries[0]) {
        WalkWithoutFaults(t, fails, entries[1..]);
      } else {
        var name := Base(entries[0].path);
        var fs := ProcessFile(t, fails, entries[0].content, name);
        ProcessFileContract(t, fails, entries[0].content, name);
        ProcessFileErrors(t, fails, entries[0].content, name);
        WalkWithoutFaults(fs.tables, fails, entries[1..]);
      }
    }
  }

  /** A message appended while its author is not a known user gets no
      full-text row, so no search over the resulting tables returns it. */
  lemma UnknownAuthorNeverFound(t: Tables, t': Tables, e: FtsEngine, q: string, limit: int, i: int)
    requires Consistent(t) && Appended(t, t')
    requires |t.messages| <= i < |t'.messages| && t'.messages[i].userId !in t.users
    requires Search(t', e, q, limit).Ok?
    ensures forall k :: 0 <= k < |Search(t', e, q, limit).value| ==>
      Search(t', e, q, limit).value[k].message.id != t'.messages[i].id
  {
    SearchContract(t', e, q, limit);
    assert Indexed(t', t'.messages[i]);
  }

  /** The first walk counts exactly the message files when WalkDir reports
      no error, and a walk error fails it. */
  lemma {:induction false} CountFilesFacts(entries: seq<WalkEntry>)
    ensures CountFiles(entries).failed <==> WalkError in entries
    ensures !CountFiles(entries).failed ==> CountFiles(entries).files == MessageFiles(entries)
  {
    if entries != [] {
      CountFilesFacts(entries[1..]);
      assert entries == [entries[0]] + entries[1..];
    }
  }

  // ---------------------------------------------------------------------------
  // loadUsers and loadChannels

  /** What reading and decoding users.json or channels.json produced. */
  datatype DataFile<T> = Missing | Unparsable | Parsed(items: seq<T>)

  datatype LoadStep = LoadStep(tables: Tables, err: Option<IndexError>)

  /** The record loadUsers builds from an entry of users.json. */
  function UserOf(j: UserJson): User {
    User(j.id, j.name, j.profile.realName, j.profile.displayName, j.isBot, j.deleted)
  }

  /** The insert loop of loadUsers, stopping at the first failed insert. */
  function PutUsers(t: Tables, fails: nat -> bool, us: seq<UserJson>): (s: LoadStep)
    decreases |us|
    ensures s.err.None? || exists k :: 0 <= k < |us| && s.err == Some(UserInsertFailed(us[k].id))
    ensures t.writes <= s.tables.writes <= t.writes + |us|
  {
    if us == [] then LoadStep(t, None)
    else
      var s := TryPutUser(t, fails, UserOf(us[0]));
      if !s.ok then LoadStep(s.tables, Some(UserInsertFailed(us[0].id)))
      else PutUsers(s.tables, fails, us[1..])
  }

  function LoadUsersSpec(t: Tables, fails: nat -> bool, file: DataFile<UserJson>): LoadStep {
    match file
    case Missing => LoadStep(t, Some(UsersUnreadable))
    case Unparsable => LoadStep(t, Some(UsersUnparsable))
    case Parsed(us) => PutUsers(t, fails, us)
  }

  function PutChannels(t: Tables, fails: nat -> bool, cs: seq<Channel>): (s: LoadStep)
    decreases |cs|
    ensures s.err.None? || exists k :: 0 <= k < |cs| && s.err == Some(ChannelInsertFailed(cs[k].id))
    ensures t.writes <= s.tables.writes <= t.writes + |cs|
  {
    if cs == [] then LoadStep(t, None)
    else
      var s := TryPutChannel(t, fails, cs[0]);
      if !s.ok then LoadStep(s.tables, Some(ChannelInsertFailed(cs[0].id)))
      else PutChannels(s.tables, fails, cs[1..])
  }

  function LoadChannelsSpec(t: Tables, fails: nat -> bool, file: DataFile<Channel>): LoadStep {
    match file
    case Missing => LoadStep(t, Some(ChannelsUnreadable))
    case Unparsable => LoadStep(t, Some(ChannelsUnparsable))
    case Parsed(cs) => PutChannels(t, fails, cs)
  }

  /** The users map after upserting `us` in order when no insert fails. */
  function UpsertUsers(m: map<string, User>, us: seq<UserJson>): map<string, User>
    decreases |us|
  {
    if us == [] then m else UpsertUsers(m[us[0].id := UserOf(us[0])], us[1..])
  }

  /** Upserting a list is overriding with the map the list builds, the last
      entry for an id winning. */
  lemma {:induction false} UpsertUsersOverrides(m: map<string, User>, us: seq<UserJson>)
    decreases |us|
    ensures UpsertUsers(m, us) == m + UpsertUsers(map[], us)
  {
    if us != [] {
      var u := us[0];
      UpsertUsersOverrides(m[u.id := UserOf(u)], us[1..]);
      UpsertUsersOverrides(map[u.id := UserOf(u)], us[1..]);
      assert m[u.id := UserOf(u)] == m + map[u.id := UserOf(u)];
      assert map[][u.id := UserOf(u)] == map[u.id := UserOf(u)];
    }
  }

  /** Loading the same users file twice leaves the users table as after
      loading it once: same ids, so the same count, and the same records. */
  lemma UpsertUsersIdempotent(m: map<string, User>, us: seq<UserJson>)
    ensures UpsertUsers(UpsertUsers(m, us), us) == UpsertUsers(m, us)
  {
    UpsertUsersOverrides(m, us);
    UpsertUsersOverrides(UpsertUsers(m, us), us);
    var u := UpsertUsers(map[], us);
    assert (m + u) + u == m + u;
  }

  /** loadUsers when no write fails: the users table is the upsert of the
      converted entries and nothing else changes. */
  lemma {:induction false} PutUsersWithoutFaults(t: Tables, fails: nat -> bool, us: seq<UserJson>)
    requires forall w :: t.writes <= w < t.writes + |us| ==> !fails(w)
    decreases |us|
    ensures PutUsers(t, fails, us).err.None?
    ensures PutUsers(t, fails, us).tables.users == UpsertUsers(t.users, us)
    ensures PutUsers(t, fails, us).tables == t.(users := UpsertUsers(t.users, us), writes := t.writes + |us|)
  {
    if us != [] {
      assert !fails(t.writes);
      var t1 := TryPutUser(t, fails, UserOf(us[0])).tables;
      PutUsersWithoutFaults(t1, fails, us[1..]);
    }
  }

  /** The channels map after upserting `cs` in order when no insert fails. */
  function UpsertChannels(m: map<string, Channel>, cs: seq<Channel>): map<string, Channel>
    decreases |cs|
  {
    if cs == [] then m else UpsertChannels(m[cs[0].id := cs[0]], cs[1..])
  }

  /** Upserting channels is overriding with the map the list builds, the
      last entry for an id winning. */
  lemma {:induction false} UpsertChannelsOverrides(m: map<string, Channel>, cs: seq<Channel>)
    decreases |cs|
    ensures UpsertChannels(m, cs) == m + UpsertChannels(map[], cs)
  {
    if cs != [] {
      var c := cs[0];
      UpsertChannelsOverrides(m[c.id := c], cs[1..]);
      UpsertChannelsOverrides(map[c.id := c], cs[1..]);
      assert m[c.id := c] == m + map[c.id := c];
      assert map[][c.id := c] == map[c.id := c];
    }
  }

  /** Loading the same channels file twice leaves the channels table as
      after loading it once. */
  lemma UpsertChannelsIdempotent(m: map<string, Channel>, cs: seq<Channel>)
    ensures UpsertChannels(UpsertChannels(m, cs), cs) == UpsertChannels(m, cs)
  {
    UpsertChannelsOverrides(m, cs);
    UpsertChannelsOverrides(UpsertChannels(m, cs), cs);
    var c := UpsertChannels(map[], cs);
    assert (m + c) + c == m + c;
  }

  /** loadChannels when no write fails: the channels table is the upsert of
      the entries and nothing else changes. */
  lemma {:induction false} PutChannelsWithoutFaults(t: Tables, fails: nat -> bool, cs: seq<Channel>)
    requires forall w :: t.writes <= w < t.writes + |cs| ==> !fails(w)
    decreases |cs|
    ensures PutChannels(t, fails, cs).err.None?
    ensures PutChannels(t, fails, cs).tables == t.(channels := UpsertChannels(t.channels, cs), writes := t.writes + |cs|)
  {
    if cs != [] {
      assert !fails(t.writes);
      var t1 := TryPutChannel(t, fails, cs[0]).tables;
      PutChannelsWithoutFaults(t1, fails, cs[1..]);
    }
  }

  /** Loading reference data changes only users, or only channels, and
      keeps the store consistent. */
  lemma {:induction false} PutUsersKeeps(t: Tables, fails: nat -> bool, us: seq<UserJson>)
    requires Consistent(t)
    decreases |us|
    ensures var t' := PutUsers(t, fails, us).tables;
      Consistent(t') && t'.channels == t.channels && t'.messages == t.messages && t'.fts == t.fts
  {
    if us != [] {
      var s := TryPutUser(t, fails, UserOf(us[0]));
      UpsertUser(t, UserOf(us[0]));
      assert Consistent(s.tables) && s.tables.messages == t.messages;
      PutUsersKeeps(s.tables, fails, us[1..]);
    }
  }

  lemma {:induction false} PutChannelsKeeps(t: Tables, fails: nat -> bool, cs: seq<Channel>)
    requires Consistent(t)
    decreases |cs|
    ensures var t' := PutChannels(t, fails, cs).tables;
      Consistent(t') && t'.users == t.users && t'.messages == t.messages && t'.fts == t.fts
  {
    if cs != [] {
      var s := TryPutChannel(t, fails, cs[0]);
      UpsertChannel(t, cs[0]);
      assert Consistent(s.tables) && s.tables.messages == t.messages;
      PutChannelsKeeps(s.tables, fails, cs[1..]);
    }
  }

  // ---------------------------------------------------------------------------
  // IndexChannel

  /** The counts IndexChannel prints on completion. */
  datatype Report = Report(users: int, channels: int, messages: int, filesProcessed: int)

  datatype IndexOutcome = IndexOutcome(tables: Tables, files: FilesOutcome, result: Result<Report, IndexError>)

  /** IndexChannel as a function, given processedFiles before the run. */
  function IndexSpec(t: Tables, fails: nat -> bool, users: DataFile<UserJson>, channels: DataFile<Channel>,
                     entries: seq<WalkEntry>, processedBefore: int): (o: IndexOutcome)
    ensures !users.Parsed? ==> o.tables == t && o.result.Err?
    ensures o.result.Ok? ==> users.Parsed? && channels.Parsed?
  {
    var none := FilesOutcome(t, 0, 0, [], None);
    var su := LoadUsersSpec(t, fails, users);
    if su.err.Some? then IndexOutcome(su.tables, none.(tables := su.tables), Err(su.err.value))
    else
      var sc := LoadChannelsSpec(su.tables, fails, channels);
      if sc.err.Some? then IndexOutcome(sc.tables, none.(tables := sc.tables), Err(sc.err.value))
      else
        var f := FilesSpec(sc.tables, fails, entries);
        if f.err.Some? then IndexOutcome(f.tables, f, Err(f.err.value))
        else
          IndexOutcome(f.tables, f, Ok(Report(|f.tables.users|, |f.tables.channels|, |f.tables.messages|,
                                              processedBefore + f.processed)))
  }

  /** The ordering barrier: users and then channels are fully loaded before
      any message file is read. A failure in either aborts the run before any
      message is written and before any file is counted; once both are
      loaded, the message phase leaves them as loaded, so every message insert
      sees all of them, and every message it appends is a human message with
      text. */
  lemma IndexBarrier(t: Tables, fails: nat -> bool, users: DataFile<UserJson>, channels: DataFile<Channel>,
                     entries: seq<WalkEntry>, processedBefore: int)
    requires Consistent(t)
    ensures var out := IndexSpec(t, fails, users, channels, entries, processedBefore);
      var su := LoadUsersSpec(t, fails, users);
      var sc := LoadChannelsSpec(su.tables, fails, channels);
      && Consistent(out.tables)
      && (su.err.Some? ==>
            out.result == Err(su.err.value) && out.tables.messages == t.messages &&
            out.tables.channels == t.channels && out.files.total == 0 && out.files.warnings == [])
      && (su.err.None? && sc.err.Some? ==>
            out.result == Err(sc.err.value) && out.tables.messages == t.messages &&
            out.tables.users == su.tables.users && out.files.total == 0 && out.files.warnings == [])
      && (su.err.None? && sc.err.None? ==>
            && out.tables.users == su.tables.users
            && out.tables.channels == sc.tables.channels
            && Appended(sc.tables, out.tables)
            && (forall i :: |t.messages| <= i < |out.tables.messages| ==> HumanRow(out.tables.messages[i])))
  {
    var su := LoadUsersSpec(t, fails, users);
    if users.Parsed? {
      PutUsersKeeps(t, fails, users.items);
    }
    if su.err.None? {
      var sc := LoadChannelsSpec(su.tables, fails, channels);
      if channels.Parsed? {
        PutChannelsKeeps(su.tables, fails, channels.items);
      }
      if sc.err.None? {
        WalkFacts(sc.tables, fails, entries);
        if CountFiles(entries).failed {
          AppendedReflexive(sc.tables);
        }
      }
    }
  }

  // ---------------------------------------------------------------------------
  // The indexer object

  class Indexer {
    const db: Store
    const channelName: string
    var totalFiles: int
    var processedFiles: int

    /** NewIndexer: opens the channel's store. */
    constructor (channelName: string, fails: nat -> bool)
      ensures this.channelName == channelName && totalFiles == 0 && processedFiles == 0
      ensures fresh(db) && db.Valid() && db.State() == EmptyTables && db.fails == fails
      ensures db.filename == DatabaseFileName(channelName)
    {
      this.channelName := channelName;
      db := new Store(channelName, fails);
      totalFiles, processedFiles := 0, 0;
    }

    method LoadUsers(file: DataFile<UserJson>) returns (err: Option<IndexError>)
      requires db.Valid()
      modifies db
      ensures db.Valid()
      ensures LoadStep(db.State(), err) == LoadUsersSpec(old(db.State()), db.fails, file)
    {
      if file.Missing? {
        return Some(UsersUnreadable);
      } else if file.Unparsable? {
        return Some(UsersUnparsable);
      }
      var us := file.items;
      ghost var t0 := db.State();
      var i := 0;
      while i < |us|
        invariant 0 <= i <= |us|
        invariant db.Valid()
        invariant PutUsers(db.State(), db.fails, us[i..]) == PutUsers(t0, db.fails, us)
      {
        assert us[i..][0] == us[i] && us[i..][1..] == us[i + 1..];
        var u := UserOf(us[i]);
        var ok := db.InsertUser(u);
        if !ok {
          return Some(UserInsertFailed(us[i].id));
        }
        i := i + 1;
      }
      return None;
    }

    method LoadChannels(file: DataFile<Channel>) returns (err: Option<IndexError>)
      requires db.Valid()
      modifies db
      ensures db.Valid()
      ensures LoadStep(db.State(), err) == LoadChannelsSpec(old(db.State()), db.fails, file)
    {
      if file.Missing? {
        return Some(ChannelsUnreadable);
      } else if file.Unparsable? {
        return Some(ChannelsUnparsable);
      }
      var cs := file.items;
      ghost var t0 := db.State();
      var i := 0;
      while i < |cs|
        invariant 0 <= i <= |cs|
        invariant db.Valid()
        invariant PutChannels(db.State(), db.fails, cs[i..]) == PutChannels(t0, db.fails, cs)
      {
        assert cs[i..][0] == cs[i] && cs[i..][1..] == cs[i + 1..];
        var ok := db.InsertChannel(cs[i]);
        if !ok {
          return Some(ChannelInsertFailed(cs[i].id));
        }
        i := i + 1;
      }
      return None;
    }

    method ProcessMessageFile(content: FileContent, filename: string) returns (err: Option<FileError>)
      requires db.Valid()
      modifies db
      ensures db.Valid()
      ensures FileStep(db.State(), err) == ProcessFile(old(db.State()), db.fails, content, filename)
    {
      if content.Unreadable? {
        return Some(ReadFailed);
      } else if content.NotJsonArray? {
        return Some(ParseFailed);
      }
      var recs := content.records;
      var date := FileDate(filename);
      if date.None? {
        return Some(BadDateName);
      }
      var d := date.value;
      ghost var t0 := db.State();
      var i := 0;
      assert recs[i..] == recs;
      while i < |recs|
        invariant 0 <= i <= |recs|
        invariant db.Valid()
        invariant InsertAll(db.State(), db.fails, Accepted(recs[i..], filename, d))
               == InsertAll(t0, db.fails, Accepted(recs, filename, d))
      {
        AcceptedUnfold(recs, i, filename, d);
        var decision := Classify(recs[i], filename, d);
        if decision.Accept? {
          ghost var before := db.State();
          ghost var rest := Accepted(recs[i + 1..], filename, d);
          InsertAllUnfold(before, db.fails, decision.message, rest);
          var ok := db.InsertMessage(decision.message);
          assert Step(db.State(), ok) == TryAppendMessage(before, db.fails, decision.message);
          if !ok {
            return Some(InsertFailed);
          }
          assert InsertAll(db.State(), db.fails, rest) == InsertAll(t0, db.fails, Accepted(recs, filename, d));
        }
        i := i + 1;
      }
      assert recs[i..] == [];
      return None;
    }

    method ProcessMessageFiles(entries: seq<WalkEntry>) returns (err: Option<IndexError>, warnings: seq<Warning>)
      requires db.Valid()
      modifies this, db
      ensures db.Valid()
      ensures totalFiles >= old(totalFiles) && processedFiles >= old(processedFiles)
      ensures FilesOutcome(db.State(), totalFiles - old(totalFiles), processedFiles - old(processedFiles), warnings, err)
           == FilesSpec(old(db.State()), db.fails, entries)
    {
      var failed := CountMessageFiles(entries);
      if failed {
        return Some(CountFailed), [];
      }
      failed, warnings := WalkMessageFiles(entries);
      err := if failed then Some(WalkFailed) else None;
    }

    /** The first walk: counts the message files into `totalFiles`, up to
        the first walk error. */
    method CountMessageFiles(entries: seq<WalkEntry>) returns (failed: bool)
      modifies this
      ensures failed == CountFiles(entries).failed
      ensures totalFiles == old(totalFiles) + CountFiles(entries).files
      ensures processedFiles == old(processedFiles)
    {
      var i := 0;
      assert entries[i..] == entries;
      while i < |entries|
        invariant 0 <= i <= |entries|
        invariant CountFiles(entries).failed == CountFiles(entries[i..]).failed
        invariant CountFiles(entries).files == totalFiles - old(totalFiles) + CountFiles(entries[i..]).files
        invariant processedFiles == old(processedFiles)
      {
        CountUnfold(entries, i);
        if entries[i].WalkError? {
          return true;
        }
        if IsMessageFile(entries[i]) {
          totalFiles := totalFiles + 1;
        }
        i := i + 1;
      }
      assert entries[i..] == [];
      return false;
    }

    /** The second walk: processes every message file, counting those that
        succeed into `processedFiles` and warning about the others, up to
        the first walk error. */
    method WalkMessageFiles(entries: seq<WalkEntry>) returns (failed: bool, warnings: seq<Warning>)
      requires db.Valid()
      modifies this, db
      ensures db.Valid()
      ensures totalFiles == old(totalFiles) && processedFiles >= old(processedFiles)
      ensures WalkFiles(old(db.State()), db.fails, entries)
           == Walked(db.State(), processedFiles - old(processedFiles), warnings, failed)
    {
      ghost var t0 := db.State();
      warnings := [];
      var i := 0;
      assert entries[i..] == entries;
      while i < |entries|
        invariant 0 <= i <= |entries|
        invariant db.Valid()
        invariant totalFiles == old(totalFiles) && processedFiles >= old(processedFiles)
        invariant WalkFiles(t0, db.fails, entries) ==
          Resume(WalkFiles(db.State(), db.fails, entries[i..]), processedFiles - old(processedFiles), warnings)
      {
        ghost var before := db.State();
        WalkUnfold(before, db.fails, entries, i);
        if entries[i].WalkError? {
          return true, warnings;
        }
        if IsMessageFile(entries[i]) {
          var filename := Base(entries[i].path);
          var fileErr := ProcessMessageFile(entries[i].content, filename);
          ghost var after := db.State();
          if fileErr.Some? {
            warnings := warnings + [Warning(filename, fileErr.value)];
          } else {
            processedFiles := processedFiles + 1;
          }
          assert db.State() == after;
          ResumeShift(WalkFiles(after, db.fails, entries[i + 1..]), fileErr, filename,
                      processedFiles - old(processedFiles), warnings);
        }
        i := i + 1;
      }
      assert entries[i..] == [];
      return false, warnings;
    }

    method IndexChannel(users: DataFile<UserJson>, channels: DataFile<Channel>, entries: seq<WalkEntry>)
      returns (r: Result<Report, IndexError>, warnings: seq<Warning>)
      requires db.Valid()
      modifies this, db
      ensures db.Valid()
      ensures var out := IndexSpec(old(db.State()), db.fails, users, channels, entries, old(processedFiles));
        && db.State() == out.tables
        && r == out.result
        && warnings == out.files.warnings
        && totalFiles == old(totalFiles) + out.files.total
        && processedFiles == old(processedFiles) + out.files.processed
    {
      warnings := [];
      ghost var t0 := db.State();
      var err := LoadUsers(users);
      if err.Some? {
        return Err(err.value), [];
      }
      ghost var su := LoadUsersSpec(t0, db.fails, users);
      assert db.State() == su.tables && su.err.None?;
      err := LoadChannels(channels);
      if err.Some? {
        return Err(err.value), [];
      }
      ghost var sc := LoadChannelsSpec(su.tables, db.fails, channels);
      assert db.State() == sc.tables && sc.err.None?;
      err, warnings := ProcessMessageFiles(entries);
      if err.Some? {
        return Err(err.value), warnings;
      }
      var stats := db.GetStats();
      return Ok(Report(stats["users"], stats["channels"], stats["messages"], processedFiles)), warnings;
    }
  }
}
