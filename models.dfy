/** The records shared by the indexer, the store and the searcher
    (pkg/models/models.go). Times are Unix seconds. */
module Models {

  /** A Slack user as stored in the users table. */
  datatype User = User(id: string, name: string, realName: string, displayName: string, isBot: bool, deleted: bool)

  /** The nested profile of an entry of users.json. */
  datatype Profile = Profile(realName: string, displayName: string)

  /** An entry of users.json. */
  datatype UserJson = UserJson(id: string, name: string, profile: Profile, isBot: bool, deleted: bool)

  /** An entry of channels.json, stored as it is. */
  datatype Channel = Channel(id: string, name: string, created: int, creator: string, isArchived: bool)

  /** A message. `kind` is Slack's "type" field. The thread fields are
      plain inputs: nothing in the ingest path fills them. `userName` and
      `userRealName` are filled only by a join with the users table. */
  datatype Message = Message(
    id: int,
    userId: string,
    text: string,
    kind: string,
    subtype: string,
    timestamp: string,
    date: int,
    filename: string,
    threadTs: string,
    parentUserId: string,
    replyCount: int,
    replyUsersCount: int,
    latestReply: string,
    userName: string,
    userRealName: string)

  /** A search hit. Go's SearchResult embeds Message and declares its own
      `Filename`, which hides the embedded one: `filename` here is that outer
      field, and `message.filename` is a separate, inner field. */
  datatype SearchResult = SearchResult(message: Message, rank: real, snippet: string, filename: string)

  /** A message built from the given columns, with every other field at Go's
      zero value. */
  function NewMessage(userId: string, text: string, kind: string, subtype: string,
                      timestamp: string, date: int, filename: string): Message
  {
    Message(0, userId, text, kind, subtype, timestamp, date, filename, "", "", 0, 0, "", "", "")
  }
}
