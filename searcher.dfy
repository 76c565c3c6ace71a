/** Search orchestration and result presentation (pkg/searcher/searcher.go):
    the limit default, the plain-text formatter, the thread classification
    that GenerateHTMLOutput does before rendering, the template helpers
    formatUser and truncate, and this package's own copy of
    sanitizeFilename.

    The date layout of time.Format and the thread lookup, which the store
    file does not define, are parameters. */
module Searcher {
  import opened GoLib
  import opened Models
  import Database

  // ---------------------------------------------------------------------------
  // Search

  /** The limit Search uses when it is given none. */
  const DefaultLimit: int := 10

  function EffectiveLimit(limit: int): (r: int)
    ensures r > 0
    ensures limit > 0 ==> r == limit
    ensures limit <= 0 ==> r == DefaultLimit
  {
    if limit <= 0 then DefaultLimit else limit
  }

  // ---------------------------------------------------------------------------
  // FormatResults

  /** The label FormatResults prints: "Real (Name)" when the real name is
      set, the name otherwise, and the user id when that is empty. */
  function UserLabel(m: Message): (s: string)
    ensures s == "" <==> m.userRealName == "" && m.userName == "" && m.userId == ""
  {
    var name := if m.userRealName != "" then m.userRealName + " (" + m.userName + ")" else m.userName;
    if name == "" then m.userId else name
  }

  /** The longest message text FormatResults prints. */
  const MaxDisplay: int := 500

  /** The printed message text: the snippet when there is one, the text
      otherwise, newlines turned into spaces and cut to 497 characters plus
      "..." when longer than 500. */
  function DisplayText(r: SearchResult): (s: string)
    ensures |s| <= MaxDisplay && '\n' !in s
  {
    var source := if r.snippet != "" then r.snippet else r.message.text;
    var clean := ReplaceChar(source, '\n', ' ');
    if |clean| > MaxDisplay then clean[..MaxDisplay - 3] + "..." else clean
  }

  function Header(n: int): string {
    "Found " + FormatInt(n) + " result(s):\n\n"
  }

  /** The block printed for the result at position `i`; the date is shown
      with `formatDate`. */
  function Block(i: int, r: SearchResult, formatDate: int -> string): string {
    "--- Result " + FormatInt(i + 1) + " ---\n" +
    "User: " + UserLabel(r.message) + "\n" +
    "Date: " + formatDate(r.message.date) + "\n" +
    "File: " + r.filename + "\n" +
    "Message: " + DisplayText(r) + "\n\n"
  }

  /** One block per result, numbered from 1 in list order. */
  function Blocks(rs: seq<SearchResult>, formatDate: int -> string): string {
    if rs == [] then ""
    else Blocks(rs[..|rs| - 1], formatDate) + Block(|rs| - 1, rs[|rs| - 1], formatDate)
  }

  /** Text `out` followed by the blocks of the first `i + 1` results is
      `out`, the blocks of the first `i`, and then block `i`. */
  lemma BlocksSnoc(out: string, rs: seq<SearchResult>, i: int, formatDate: int -> string)
    requires 0 <= i < |rs|
    ensures out + Blocks(rs[..i + 1], formatDate) == (out + Blocks(rs[..i], formatDate)) + Block(i, rs[i], formatDate)
  {
    assert rs[..i + 1][..i] == rs[..i];
  }

  /** What FormatResults returns. Only an empty list gives the message
      "No results found."; any other list starts with its count. */
  function ResultsText(rs: seq<SearchResult>, formatDate: int -> string): (out: string)
    ensures rs == [] <==> out == "No results found."
    ensures rs != [] ==> Header(|rs|) <= out
  {
    if rs == [] then "No results found."
    else
      var out := Header(|rs|) + Blocks(rs, formatDate);
      assert out[0] == 'F';
      out
  }

  /** The user id is only a fallback: when the real name or the name is set,
      the label does not depend on the id, and it is never empty then. */
  lemma UserIdOnlyAsFallback(m: Message, otherId: string)
    requires m.userRealName != "" || m.userName != ""
    ensures UserLabel(m.(userId := otherId)) == UserLabel(m)
    ensures UserLabel(m) != ""
  {
  }

  /** The printed message text is one line of at most 500 characters: a text
      that fits is printed whole, newlines turned into spaces; a longer one
      keeps its first 497 characters followed by "...". */
  lemma DisplayTextFacts(r: SearchResult)
    ensures var source := if r.snippet != "" then r.snippet else r.message.text;
      var clean := ReplaceChar(source, '\n', ' ');
      && |DisplayText(r)| <= MaxDisplay
      && '\n' !in DisplayText(r)
      && (|source| <= MaxDisplay ==> DisplayText(r) == clean)
      && (|source| > MaxDisplay ==>
            |DisplayText(r)| == MaxDisplay &&
            DisplayText(r)[..MaxDisplay - 3] == clean[..MaxDisplay - 3] &&
            DisplayText(r)[MaxDisplay - 3..] == "...")
      && (forall k :: 0 <= k < |DisplayText(r)| - 3 ==> DisplayText(r)[k] == (if source[k] == '\n' then ' ' else source[k]))
  {
    var source := if r.snippet != "" then r.snippet else r.message.text;
    var clean := ReplaceChar(source, '\n', ' ');
    assert forall k :: 0 <= k < |clean| ==> clean[k] != '\n';
    if |clean| > MaxDisplay {
      var d := clean[..MaxDisplay - 3] + "...";
      assert forall k :: 0 <= k < |d| ==> d[k] != '\n' by {
        forall k | 0 <= k < |d| ensures d[k] != '\n' {
          if k < MaxDisplay - 3 {
            assert d[k] == clean[k];
          } else {
            assert d[k] == '.';
          }
        }
      }
    }
  }

  // ---------------------------------------------------------------------------
  // Thread classification of GenerateHTMLOutput

  /** ThreadedSearchResult. */
  datatype ThreadedResult = ThreadedResult(original: SearchResult, threadMessages: seq<Message>, isThreaded: bool)

  /** The thread lookup: the messages of a thread, or None when it fails. */
  type ThreadLookup = string -> Option<seq<Message>>

  /** The thread to look up for a message: its own thread timestamp when it
      is in a thread, its timestamp when it is a parent with replies, and ""
      (no lookup) otherwise. */
  function ThreadRoot(m: Message): (root: string)
    ensures root == "" <==> m.threadTs == "" && (m.replyCount <= 0 || m.timestamp == "")
    ensures root != "" ==> root == m.threadTs || root == m.timestamp
  {
    if m.threadTs != "" then m.threadTs
    else if m.replyCount > 0 then m.timestamp
    else ""
  }

  predicate Threaded(m: Message, lookup: ThreadLookup) {
    var root := ThreadRoot(m);
    root != "" && lookup(root).Some? && |lookup(root).value| > 1
  }

  function ThreadContext(r: SearchResult, lookup: ThreadLookup): (tr: ThreadedResult)
    ensures tr.original == r
  {
    if Threaded(r.message, lookup) then ThreadedResult(r, lookup(ThreadRoot(r.message)).value, true)
    else ThreadedResult(r, [], false)
  }

  /** A result is shown as threaded exactly when a non-empty thread root was
      chosen, the lookup succeeded and found more than one message, and only
      then does it carry the thread's messages. */
  lemma ThreadContextFacts(r: SearchResult, lookup: ThreadLookup)
    ensures var root := ThreadRoot(r.message);
      && (ThreadContext(r, lookup).isThreaded <==>
            root != "" && lookup(root).Some? && |lookup(root).value| > 1)
      && (ThreadContext(r, lookup).isThreaded ==> ThreadContext(r, lookup).threadMessages == lookup(root).value)
      && (!ThreadContext(r, lookup).isThreaded ==> ThreadContext(r, lookup).threadMessages == [])
      && (root != "" ==> root == r.message.threadTs || (r.message.threadTs == "" && 0 < r.message.replyCount && root == r.message.timestamp))
      && (r.message.threadTs == "" && r.message.replyCount <= 0 ==> !ThreadContext(r, lookup).isThreaded)
  {
  }

  /** Results of a search are never threaded: the search statement reads no
      thread columns, so every result has an empty thread timestamp and no
      replies, and no lookup is made. */
  lemma SearchResultsNeverThreaded(t: Database.Tables, e: Database.FtsEngine, q: string, limit: int, lookup: ThreadLookup)
    requires Database.Search(t, e, q, limit).Ok?
    ensures forall k :: 0 <= k < |Database.Search(t, e, q, limit).value| ==>
      ThreadRoot(Database.Search(t, e, q, limit).value[k].message) == "" &&
      ThreadContext(Database.Search(t, e, q, limit).value[k], lookup) ==
        ThreadedResult(Database.Search(t, e, q, limit).value[k], [], false)
  {
    var hs := Database.RowsRead(e, Database.QueryRows(t, e, q, limit).value);
    var rs := Database.Search(t, e, q, limit).value;
    assert rs == Database.ScanAll(hs);
    forall k | 0 <= k < |rs|
      ensures ThreadRoot(rs[k].message) == ""
    {
      assert rs[k] == Database.ScanRow(hs[k]);
    }
  }

  // ---------------------------------------------------------------------------
  // Template helpers

  /** formatUser: "real (user)" only when both names are set, else the user
      name, else the id. */
  function FormatUser(realName: string, userName: string, userId: string): (s: string)
    ensures s == "" <==> userName == "" && userId == ""
  {
    if realName != "" && userName != "" then realName + " (" + userName + ")"
    else if userName != "" then userName
    else userId
  }

  /** formatUser falls back to the id exactly when the user name is empty:
      with a user name set the id plays no part. */
  lemma FormatUserFallback(realName: string, userName: string, userId: string, otherId: string)
    ensures userName != "" ==> FormatUser(realName, userName, userId) == FormatUser(realName, userName, otherId)
    ensures userName == "" ==> FormatUser(realName, userName, userId) == userId
  {
  }

  /** The two label rules agree except when only the real name is set: then
      FormatResults prints "Real ()" and formatUser falls back to the id. */
  lemma LabelsAgree(m: Message)
    ensures UserLabel(m) == FormatUser(m.userRealName, m.userName, m.userId) <==>
      !(m.userRealName != "" && m.userName == "") || m.userId == m.userRealName + " ()"
    ensures m.userRealName != "" && m.userName == "" ==>
      UserLabel(m) == m.userRealName + " ()" && FormatUser(m.userRealName, m.userName, m.userId) == m.userId
  {
    if m.userRealName != "" && m.userName == "" {
      assert m.userRealName + " (" + m.userName + ")" == m.userRealName + " ()";
    }
  }

  /** truncate: the text itself when it has at most `length` characters,
      otherwise its first `length` characters followed by "...". A negative
      length makes the slice panic in the source. */
  function Truncate(text: string, length: int): (r: string)
    requires length >= 0
    ensures |text| <= length ==> r == text
    ensures |text| > length ==> |r| == length + 3 && r[..length] == text[..length] && r[length..] == "..."
  {
    if |text| <= length then text else text[..length] + "..."
  }

  /** Truncating twice with the same length is truncating once. */
  lemma TruncateIdempotent(text: string, length: int)
    requires length >= 0
    ensures Truncate(Truncate(text, length), length) == Truncate(text, length)
  {
    if |text| > length {
      var r := Truncate(text, length);
      assert r[..length] == text[..length];
    }
  }

  // ---------------------------------------------------------------------------
  // sanitizeFilename, this package's copy

  /** The old/new pairs given to strings.NewReplacer, in argument order. */
  const Replacements: seq<(char, char)> :=
    [(':', '_'), ('/', '_'), ('\\', '_'), ('*', '_'), ('?', '_'),
     ('\"', '_'), ('<', '_'), ('>', '_'), ('|', '_'), (' ', '_')]

  /** A Replacer over one-character old strings: the first pair whose old
      string is `c` decides, and a character no pair names is kept. */
  function ReplaceOne(pairs: seq<(char, char)>, c: char): char {
    if pairs == [] then c
    else if pairs[0].0 == c then pairs[0].1
    else ReplaceOne(pairs[1..], c)
  }

  function SanitizeFilename(name: string): (r: string)
    ensures |r| == |name|
    ensures forall i :: 0 <= i < |name| ==> r[i] == ReplaceOne(Replacements, name[i])
  {
    if name == [] then [] else [ReplaceOne(Replacements, name[0])] + SanitizeFilename(name[1..])
  }

  function Olds(pairs: seq<(char, char)>): seq<char> {
    if pairs == [] then [] else [pairs[0].0] + Olds(pairs[1..])
  }

  /** When every replacement is '_', a character is replaced exactly when
      some pair names it. */
  lemma {:induction false} ReplaceWithUnderscore(pairs: seq<(char, char)>, c: char)
    requires forall i :: 0 <= i < |pairs| ==> pairs[i].1 == '_'
    ensures ReplaceOne(pairs, c) == if c in Olds(pairs) then '_' else c
  {
    if pairs != [] {
      ReplaceWithUnderscore(pairs[1..], c);
    }
  }

  /** This copy agrees with the store's sanitizeFilename on every name, so
      both packages name the same database file. */
  lemma SanitizeFilenameAgrees(name: string)
    ensures SanitizeFilename(name) == Database.SanitizeFilename(name)
  {
    forall i | 0 <= i < |name|
      ensures SanitizeFilename(name)[i] == Database.SanitizeFilename(name)[i]
    {
      SanitizeCharAgrees(name[i]);
    }
  }

  lemma SanitizeCharAgrees(c: char)
    ensures ReplaceOne(Replacements, c) == Database.SanitizeChar(c)
  {
    OldsOfReplacements();
    ReplaceWithUnderscore(Replacements, c);
  }

  lemma OldsOfReplacements()
    ensures Olds(Replacements) == [':', '/', '\\', '*', '?', '\"', '<', '>', '|', ' ']
  {
  }

  // ---------------------------------------------------------------------------
  // The searcher object

  /** FormatResults: a header and one block per result, built in a loop. */
  method FormatResults(results: seq<SearchResult>, formatDate: int -> string) returns (out: string)
    ensures out == ResultsText(results, formatDate)
  {
    if |results| == 0 {
      return "No results found.";
    }
    out := "Found " + FormatInt(|results|) + " result(s):\n\n";
    for i := 0 to |results|
      invariant out == Header(|results|) + Blocks(results[..i], formatDate)
    {
      var result := results[i];
      var date := formatDate(result.message.date);
      var userName := result.message.userName;
      if result.message.userRealName != "" {
        userName := result.message.userRealName + " (" + result.message.userName + ")";
      }
      if userName == "" {
        userName := result.message.userId;
      }
      assert userName == UserLabel(result.message);
      var messageText := result.message.text;
      if result.snippet != "" {
        messageText := result.snippet;
      }
      messageText := ReplaceChar(messageText, '\n', ' ');
      if |messageText| > MaxDisplay {
        messageText := messageText[..MaxDisplay - 3] + "...";
      }
      assert messageText == DisplayText(result);
      var block := "--- Result " + FormatInt(i + 1) + " ---\n" +
                   "User: " + userName + "\n" +
                   "Date: " + date + "\n" +
                   "File: " + result.filename + "\n" +
                   "Message: " + messageText + "\n\n";
      assert block == Block(i, results[i], formatDate);
      BlocksSnoc(Header(|results|), results, i, formatDate);
      out := out + block;
    }
    assert results[..|results|] == results;
  }

  class Searcher {
    const db: Database.Store

    /** NewSearcher: a searcher over the channel's store. */
    constructor (db: Database.Store)
      ensures this.db == db
    {
      this.db := db;
    }

    /** Search forwards to SearchMessages with a positive limit kept and
        DefaultLimit for a limit of 0 or less, so it never returns more than
        that many results. */
    method Search(e: Database.FtsEngine, query: string, limit: int)
      returns (r: Result<seq<SearchResult>, Database.SearchError>)
      requires db.Valid()
      ensures r == Database.Search(db.State(), e, query, EffectiveLimit(limit))
      ensures r == Err(Database.QueryFailed) <==> !e.accepts(query)
      ensures r.Ok? ==> |r.value| <= EffectiveLimit(limit)
      ensures r.Ok? && limit <= 0 ==> |r.value| <= DefaultLimit
    {
      var l := limit;
      if l <= 0 {
        l := DefaultLimit;
      }
      r := db.SearchMessages(e, query, l);
      Database.SearchContract(db.State(), e, query, l);
    }

    /** The loop of GenerateHTMLOutput that attaches thread context: one
        entry per result, in the same order. */
    method ThreadContexts(results: seq<SearchResult>, lookup: ThreadLookup) returns (threaded: seq<ThreadedResult>)
      ensures |threaded| == |results|
      ensures forall k :: 0 <= k < |results| ==> threaded[k] == ThreadContext(results[k], lookup)
    {
      threaded := [];
      for i := 0 to |results|
        invariant |threaded| == i
        invariant forall k :: 0 <= k < i ==> threaded[k] == ThreadContext(results[k], lookup)
      {
        var result := results[i];
        var tr := ThreadedResult(result, [], false);
        var threadTs := "";
        if result.message.threadTs != "" {
          threadTs := result.message.threadTs;
        } else if result.message.replyCount > 0 {
          threadTs := result.message.timestamp;
        }
        if threadTs != "" {
          var found := lookup(threadTs);
          if found.Some? && |found.value| > 1 {
            tr := tr.(threadMessages := found.value, isThreaded := true);
          }
        }
        threaded := threaded + [tr];
      }
    }
  }
}
