/**
 * The records the repository reads, reduced to the fields its queries
 * inspect, and the data context that holds one table of each.
 */
module Entities {
  import opened Dates

  /** A timestamp (`DateTime`) as a count of ticks; only its order matters here. */
  type Instant = int

  datatype Photo = Photo(id: int, userId: int, url: string, isMain: bool)

  datatype User = User(
    id: int,
    gender: string,
    dateOfBirth: Date,
    created: Instant,
    lastActive: Instant)

  /** `likerId` has expressed interest in `likeeId`. */
  datatype Like = Like(likerId: int, likeeId: int)

  datatype Message = Message(
    id: int,
    senderId: int,
    recipientId: int,
    content: string,
    isRead: bool,
    messageSent: Instant,
    senderDeleted: bool,
    recipientDeleted: bool)

  /** The tables of the data context, each in the order the store yields its rows. */
  datatype DataContext = DataContext(
    users: seq<User>,
    photos: seq<Photo>,
    likes: seq<Like>,
    messages: seq<Message>)

  /**
   * The user-listing request. A null `orderBy` is represented by the empty
   * string, which the query treats alike.
   */
  datatype UserParams = UserParams(
    userId: int,
    gender: string,
    minAge: int,
    maxAge: int,
    likers: bool,
    likees: bool,
    orderBy: string)

  /** The message-listing request; a null container is any value other than "Inbox" and "Outbox". */
  datatype MessageParams = MessageParams(userId: int, messageContainer: string)

  /** What aborts a user listing instead of producing one. */
  datatype QueryError =
    | UserNotFound      // the requesting user is absent when likes are looked up (a null dereference)
    | DateOutOfRange    // an age bound puts the birth-date window outside the calendar (AddYears throws)

  function LastActiveOf(u: User): Instant { u.lastActive }
  function CreatedOf(u: User): Instant { u.created }
  function SentOf(m: Message): Instant { m.messageSent }
}
