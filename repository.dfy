/**
 * The read queries of the dating application's repository: lookups by key,
 * the filtered and ordered user listing, the likes of a user, the message
 * containers and the conversation thread between two users. Each query is a
 * function of the data context's tables; `today` stands for the clock.
 */
module DatingRepository {
  import opened Wrappers
  import opened Sequences
  import opened Dates
  import opened Entities

  /** The age bounds a listing request carries when none were asked for. */
  const DefaultMinAge := 18
  const DefaultMaxAge := 99

  // ---------------------------------------------------------------------
  // Lookups: the first row with the given key, or nothing

  function GetPhoto(ctx: DataContext, id: int): (r: Option<Photo>)
    ensures r.Some? ==> r.value.id == id
    ensures r.Some? ==> exists i :: 0 <= i < |ctx.photos| && ctx.photos[i] == r.value
                                    && forall j :: 0 <= j < i ==> ctx.photos[j].id != id
    ensures r.None? <==> forall ph :: ph in ctx.photos ==> ph.id != id
  {
    FirstWhere(ctx.photos, (ph: Photo) => ph.id == id)
  }

  function GetUser(ctx: DataContext, id: int): (r: Option<User>)
    ensures r.Some? ==> r.value.id == id
    ensures r.Some? ==> exists i :: 0 <= i < |ctx.users| && ctx.users[i] == r.value
                                    && forall j :: 0 <= j < i ==> ctx.users[j].id != id
    ensures r.None? <==> forall u :: u in ctx.users ==> u.id != id
  {
    FirstWhere(ctx.users, (u: User) => u.id == id)
  }

  /** The first main photo of the user, found by filtering and then taking the first. */
  function GetMainPhotoForUser(ctx: DataContext, userId: int): (r: Option<Photo>)
    ensures r.Some? ==> r.value.isMain && r.value.userId == userId
    ensures r.Some? ==> exists i :: 0 <= i < |ctx.photos| && ctx.photos[i] == r.value
                                    && forall j :: 0 <= j < i ==> !(ctx.photos[j].isMain && ctx.photos[j].userId == userId)
    ensures r.None? <==> forall ph :: ph in ctx.photos ==> !(ph.isMain && ph.userId == userId)
  {
    var isMainOfUser := (ph: Photo) => ph.isMain && ph.userId == userId;
    FirstOfFilter(ctx.photos, isMainOfUser);
    First(Filter(ctx.photos, isMainOfUser))
  }

  function GetLike(ctx: DataContext, userId: int, recipientId: int): (r: Option<Like>)
    ensures r.Some? ==> r.value == Like(userId, recipientId)
    ensures r.Some? ==> exists i :: 0 <= i < |ctx.likes| && ctx.likes[i] == r.value
                                    && forall j :: 0 <= j < i ==> ctx.likes[j] != Like(userId, recipientId)
    ensures r.None? <==> Like(userId, recipientId) !in ctx.likes
  {
    FirstWhere(ctx.likes, (l: Like) => l.likerId == userId && l.likeeId == recipientId)
  }

  function GetMessage(ctx: DataContext, id: int): (r: Option<Message>)
    ensures r.Some? ==> r.value.id == id
    ensures r.Some? ==> exists i :: 0 <= i < |ctx.messages| && ctx.messages[i] == r.value
                                    && forall j :: 0 <= j < i ==> ctx.messages[j].id != id
    ensures r.None? <==> forall m :: m in ctx.messages ==> m.id != id
  {
    FirstWhere(ctx.messages, (m: Message) => m.id == id)
  }

  /** No two users share an identifier (the table's primary key). */
  predicate UniqueUserIds(ctx: DataContext) {
    forall i, j :: 0 <= i < j < |ctx.users| ==> ctx.users[i].id != ctx.users[j].id
  }

  /** With a primary key on users, looking a user up by id finds that very user. */
  lemma GetUserFindsStoredUser(ctx: DataContext, u: User)
    requires UniqueUserIds(ctx) && u in ctx.users
    ensures GetUser(ctx, u.id) == Some(u)
  {
    var r := GetUser(ctx, u.id);
    var i :| 0 <= i < |ctx.users| && ctx.users[i] == r.value
             && forall j :: 0 <= j < i ==> ctx.users[j].id != u.id;
    var k :| 0 <= k < |ctx.users| && ctx.users[k] == u;
    assert !(k < i);
  }

  /** At most one of the user's photos is flagged main; nothing in the queries enforces it. */
  predicate AtMostOneMainPhoto(ctx: DataContext, userId: int) {
    forall i, j :: 0 <= i < j < |ctx.photos| && ctx.photos[i].userId == userId && ctx.photos[j].userId == userId
                   ==> !(ctx.photos[i].isMain && ctx.photos[j].isMain)
  }

  /** Where the main-photo invariant does hold, the lookup returns the main photo. */
  lemma MainPhotoIsTheMainPhoto(ctx: DataContext, ph: Photo)
    requires AtMostOneMainPhoto(ctx, ph.userId) && ph in ctx.photos && ph.isMain
    ensures GetMainPhotoForUser(ctx, ph.userId) == Some(ph)
  {
    var r := GetMainPhotoForUser(ctx, ph.userId);
    var i :| 0 <= i < |ctx.photos| && ctx.photos[i] == r.value
             && forall j :: 0 <= j < i ==> !(ctx.photos[j].isMain && ctx.photos[j].userId == ph.userId);
    var k :| 0 <= k < |ctx.photos| && ctx.photos[k] == ph;
    assert !(k < i);
    assert !(i < k);
  }

  // ---------------------------------------------------------------------
  // Likes

  /**
   * The user's `Likers` collection as eager loading fills it: the likes whose
   * likee is the user (the relationship mapping is not part of this model).
   */
  function LikersOf(ctx: DataContext, user: User): (r: seq<Like>)
    ensures forall l :: l in r <==> l in ctx.likes && l.likeeId == user.id
  {
    Filter(ctx.likes, (l: Like) => l.likeeId == user.id)
  }

  /**
   * The user's `Likees` collection as eager loading fills it: the likes whose
   * liker is the user (the relationship mapping is not part of this model).
   */
  function LikeesOf(ctx: DataContext, user: User): (r: seq<Like>)
    ensures forall l :: l in r <==> l in ctx.likes && l.likerId == user.id
  {
    Filter(ctx.likes, (l: Like) => l.likerId == user.id)
  }

  /** The ids of the likers in the user's `Likers` collection whose likee is `id`. */
  function LikerIds(ctx: DataContext, user: User, id: int): (ids: seq<int>)
    requires user.id == id
    ensures forall x :: x in ids <==> Like(x, id) in ctx.likes
  {
    var received := Filter(LikersOf(ctx, user), (l: Like) => l.likeeId == id);
    var ids := Project(received, LikerIdOf);
    forall x ensures x in ids <==> Like(x, id) in ctx.likes {
      if Like(x, id) in ctx.likes {
        var k :| 0 <= k < |received| && received[k] == Like(x, id);
        assert ids[k] == x;
      }
      if x in ids {
        var k :| 0 <= k < |ids| && ids[k] == x;
        assert received[k] in received;
      }
    }
    ids
  }

  /** The ids of the likees in the user's `Likees` collection whose liker is `id`. */
  function LikeeIds(ctx: DataContext, user: User, id: int): (ids: seq<int>)
    requires user.id == id
    ensures forall x :: x in ids <==> Like(id, x) in ctx.likes
  {
    var given := Filter(LikeesOf(ctx, user), (l: Like) => l.likerId == id);
    var ids := Project(given, LikeeIdOf);
    forall x ensures x in ids <==> Like(id, x) in ctx.likes {
      if Like(id, x) in ctx.likes {
        var k :| 0 <= k < |given| && given[k] == Like(id, x);
        assert ids[k] == x;
      }
      if x in ids {
        var k :| 0 <= k < |ids| && ids[k] == x;
        assert given[k] in given;
      }
    }
    ids
  }

  function LikerIdOf(l: Like): int { l.likerId }
  function LikeeIdOf(l: Like): int { l.likeeId }

  /**
   * The ids of the users who like user `id` (`likers`), or of the users
   * user `id` likes (otherwise). Nothing when user `id` does not exist,
   * where the source dereferences null.
   */
  function GetUserLikes(ctx: DataContext, id: int, likers: bool): (r: Option<seq<int>>)
    ensures r.Some? <==> UserExists(ctx, id)
    ensures r.Some? && likers ==> forall x :: x in r.value <==> Like(x, id) in ctx.likes
    ensures r.Some? && !likers ==> forall x :: x in r.value <==> Like(id, x) in ctx.likes
  {
    match FirstWhere(ctx.users, (u: User) => u.id == id)
    case None => None
    case Some(user) =>
      if likers then Some(LikerIds(ctx, user, id)) else Some(LikeeIds(ctx, user, id))
  }

  /** The `Where` applied to a user's `Likers` and `Likees` collections removes nothing. */
  lemma LikeCollectionsNeedNoFilter(ctx: DataContext, user: User)
    ensures Filter(LikersOf(ctx, user), (l: Like) => l.likeeId == user.id) == LikersOf(ctx, user)
    ensures Filter(LikeesOf(ctx, user), (l: Like) => l.likerId == user.id) == LikeesOf(ctx, user)
  {
    FilterAll(LikersOf(ctx, user), (l: Like) => l.likeeId == user.id);
    FilterAll(LikeesOf(ctx, user), (l: Like) => l.likerId == user.id);
  }

  // ---------------------------------------------------------------------
  // User listing

  /** The users whose id is among `ids`. */
  function WithIdIn(users: seq<User>, ids: seq<int>): seq<User> {
    Filter(users, IdIn(ids))
  }

  function IdIn(ids: seq<int>): User -> bool {
    (u: User) => u.id in ids
  }

  predicate UserExists(ctx: DataContext, id: int) {
    exists u :: u in ctx.users && u.id == id
  }

  /**
   * What the like flags demand of a listed user. The likees step looks up
   * the likes with the `likers` flag, so with both flags set it asks for
   * likers a second time and never for likees.
   */
  predicate LikeRule(ctx: DataContext, p: UserParams, u: User) {
    && (p.likers ==> Like(u.id, p.userId) in ctx.likes)
    && (p.likees && !p.likers ==> Like(p.userId, u.id) in ctx.likes)
  }

  /** The `Likers` and `Likees` steps of the user listing. */
  function ApplyLikeFilters(ctx: DataContext, p: UserParams, users: seq<User>): (r: Result<seq<User>, QueryError>)
    ensures r.Err? <==> (p.likers || p.likees) && !UserExists(ctx, p.userId)
    ensures r.Err? ==> r.error == UserNotFound
    ensures r.Ok? ==> forall u :: multiset(r.value)[u] == if LikeRule(ctx, p, u) then multiset(users)[u] else 0
    ensures r.Ok? && SortedDesc(users, LastActiveOf) ==> SortedDesc(r.value, LastActiveOf)
  {
    if !p.likers && !p.likees then Ok(users)
    else
      // The likees step repeats the lookup with the `likers` flag, not a
      // likees flag, so both steps filter by the same list.
      match GetUserLikes(ctx, p.userId, p.likers)
      case None => Err(UserNotFound)
      case Some(ids) =>
        var afterLikers := if p.likers then WithIdIn(users, ids) else users;
        var afterLikees := if p.likees then WithIdIn(afterLikers, ids) else afterLikers;
        FilterKeepsSorted(users, IdIn(ids), LastActiveOf);
        FilterKeepsSorted(afterLikers, IdIn(ids), LastActiveOf);
        Ok(afterLikees)
  }

  predicate DefaultAges(minAge: int, maxAge: int) {
    minAge == DefaultMinAge && maxAge == DefaultMaxAge
  }

  /** The oldest birth date allowed: the day `maxAge + 1` years before today. */
  function MinDateOfBirth(maxAge: int, today: Date): (r: Option<Date>)
    ensures r.Some? <==> -MaxYearOffset <= maxAge + 1 <= MaxYearOffset && MinYear <= today.year - maxAge - 1 <= MaxYear
    ensures r.Some? && ValidDate(today) ==> ValidDate(r.value) && Age(r.value, today) == maxAge + 1
  {
    var r := AddYears(today, -maxAge - 1);
    if r.Some? && ValidDate(today) then AgeOnYearsAgo(today, maxAge + 1); r else r
  }

  /** The youngest birth date allowed: the day `minAge` years before today. */
  function MaxDateOfBirth(minAge: int, today: Date): (r: Option<Date>)
    ensures r.Some? <==> -MaxYearOffset <= minAge <= MaxYearOffset && MinYear <= today.year - minAge <= MaxYear
    ensures r.Some? && ValidDate(today) ==> ValidDate(r.value) && Age(r.value, today) == minAge
  {
    var r := AddYears(today, -minAge);
    if r.Some? && ValidDate(today) then AgeOnYearsAgo(today, minAge); r else r
  }

  /** Both ends of the birth-date window are days of the calendar. */
  predicate AgeWindowDefined(minAge: int, maxAge: int, today: Date) {
    MinDateOfBirth(maxAge, today).Some? && MaxDateOfBirth(minAge, today).Some?
  }

  /** What the age bounds demand of a listed user: nothing at the defaults, else a birth date in the window. */
  predicate AgeRule(minAge: int, maxAge: int, today: Date, dob: Date) {
    || DefaultAges(minAge, maxAge)
    || (&& AgeWindowDefined(minAge, maxAge, today)
        && DateLe(MinDateOfBirth(maxAge, today).value, dob)
        && DateLe(dob, MaxDateOfBirth(minAge, today).value))
  }

  /** The age step of the user listing. */
  function ApplyAgeFilter(minAge: int, maxAge: int, today: Date, users: seq<User>): (r: Result<seq<User>, QueryError>)
    ensures DefaultAges(minAge, maxAge) ==> r == Ok(users)
    ensures r.Err? <==> !DefaultAges(minAge, maxAge) && !AgeWindowDefined(minAge, maxAge, today)
    ensures r.Err? ==> r.error == DateOutOfRange
    ensures r.Ok? ==> forall u :: multiset(r.value)[u] == if AgeRule(minAge, maxAge, today, u.dateOfBirth) then multiset(users)[u] else 0
    ensures r.Ok? && SortedDesc(users, LastActiveOf) ==> SortedDesc(r.value, LastActiveOf)
  {
    if minAge != DefaultMinAge || maxAge != DefaultMaxAge then
      match MinDateOfBirth(maxAge, today)
      case None => Err(DateOutOfRange)
      case Some(minDob) =>
        match MaxDateOfBirth(minAge, today)
        case None => Err(DateOutOfRange)
        case Some(maxDob) =>
          var inWindow := (u: User) => DateLe(minDob, u.dateOfBirth) && DateLe(u.dateOfBirth, maxDob);
          FilterKeepsSorted(users, inWindow, LastActiveOf);
          Ok(Filter(users, inWindow))
    else
      Ok(users)
  }

  /** The final ordering step: by creation for "created", by last activity for any other non-empty value. */
  function ApplyOrderBy(orderBy: string, users: seq<User>): (r: seq<User>)
    ensures multiset(r) == multiset(users)
    ensures orderBy == "" ==> r == users
    ensures orderBy == "created" ==> SortedDesc(r, CreatedOf)
    ensures orderBy != "" && orderBy != "created" ==> SortedDesc(r, LastActiveOf)
  {
    if orderBy == "" then users
    else if orderBy == "created" then SortByDesc(users, CreatedOf)
    else SortByDesc(users, LastActiveOf)
  }

  /**
   * The first steps of the user listing: all users by descending last
   * activity, without the requesting user, of the requested gender.
   */
  function Candidates(ctx: DataContext, p: UserParams): (c: seq<User>)
    ensures SortedDesc(c, LastActiveOf)
    ensures forall u :: multiset(c)[u] == if u.id != p.userId && u.gender == p.gender then multiset(ctx.users)[u] else 0
  {
    var ordered := SortByDesc(ctx.users, LastActiveOf);
    var notSelf := (u: User) => u.id != p.userId;
    var sameGender := (u: User) => u.gender == p.gender;
    var others := Filter(ordered, notSelf);
    FilterKeepsSorted(ordered, notSelf, LastActiveOf);
    FilterKeepsSorted(others, sameGender, LastActiveOf);
    Filter(others, sameGender)
  }

  /** Everything the listing demands of a user it returns. */
  predicate Selected(ctx: DataContext, p: UserParams, today: Date, u: User) {
    && u.id != p.userId
    && u.gender == p.gender
    && LikeRule(ctx, p, u)
    && AgeRule(p.minAge, p.maxAge, today, u.dateOfBirth)
  }

  /**
   * The users listed for request `p`, before paging: the selected users,
   * each as often as it is stored, newest activity first unless ordered by
   * creation.
   */
  function GetUsers(ctx: DataContext, p: UserParams, today: Date): (r: Result<seq<User>, QueryError>)
    ensures r == Err(UserNotFound) <==> (p.likers || p.likees) && !UserExists(ctx, p.userId)
    ensures r == Err(DateOutOfRange) <==>
              !((p.likers || p.likees) && !UserExists(ctx, p.userId)) && !DefaultAges(p.minAge, p.maxAge) && !AgeWindowDefined(p.minAge, p.maxAge, today)
    ensures r.Ok? ==> forall u :: multiset(r.value)[u] == if Selected(ctx, p, today, u) then multiset(ctx.users)[u] else 0
    ensures r.Ok? && p.orderBy == "created" ==> SortedDesc(r.value, CreatedOf)
    ensures r.Ok? && p.orderBy != "created" ==> SortedDesc(r.value, LastActiveOf)
  {
    match ApplyLikeFilters(ctx, p, Candidates(ctx, p))
    case Err(e) => Err(e)
    case Ok(liked) =>
      match ApplyAgeFilter(p.minAge, p.maxAge, today, liked)
      case Err(e) => Err(e)
      case Ok(aged) =>
        Ok(ApplyOrderBy(p.orderBy, aged))
  }

  /** A user is listed exactly when it is stored and selected: the listing only removes users. */
  lemma ListedIffSelected(ctx: DataContext, p: UserParams, today: Date, u: User)
    requires GetUsers(ctx, p, today).Ok?
    ensures u in GetUsers(ctx, p, today).value <==> u in ctx.users && Selected(ctx, p, today, u)
  {
    var r := GetUsers(ctx, p, today).value;
    assert u in r <==> multiset(r)[u] > 0;
    assert u in ctx.users <==> multiset(ctx.users)[u] > 0;
  }

  /** The listing never contains the requesting user, and only users of the requested gender. */
  lemma NeverListsRequester(ctx: DataContext, p: UserParams, today: Date)
    requires GetUsers(ctx, p, today).Ok?
    ensures forall u :: u in GetUsers(ctx, p, today).value ==> u.id != p.userId && u.gender == p.gender
  {
    forall u | u in GetUsers(ctx, p, today).value ensures u.id != p.userId && u.gender == p.gender {
      ListedIffSelected(ctx, p, today, u);
    }
  }

  /** With the likers flag set, setting the likees flag as well changes nothing. */
  lemma LikeesFlagIgnoredWithLikers(ctx: DataContext, p: UserParams, today: Date)
    requires p.likers
    ensures GetUsers(ctx, p.(likees := true), today) == GetUsers(ctx, p.(likees := false), today)
  {
    var both, only := p.(likees := true), p.(likees := false);
    var c := Candidates(ctx, p);
    assert Candidates(ctx, both) == c && Candidates(ctx, only) == c;
    LikeesStepRepeatsLikers(ctx, p, c);
  }

  /** With the likers flag set, the likees step filters by the likers a second time, which removes nothing more. */
  lemma LikeesStepRepeatsLikers(ctx: DataContext, p: UserParams, users: seq<User>)
    requires p.likers
    ensures ApplyLikeFilters(ctx, p.(likees := true), users) == ApplyLikeFilters(ctx, p.(likees := false), users)
  {
    var lookup := GetUserLikes(ctx, p.userId, true);
    if lookup.Some? {
      FilterIdempotent(users, IdIn(lookup.value));
    }
  }

  /**
   * With the default age bounds the listing does not look at birth dates or
   * at the clock: any other day gives the same result.
   */
  lemma DefaultAgesIgnoreToday(ctx: DataContext, p: UserParams, today: Date, otherDay: Date)
    requires DefaultAges(p.minAge, p.maxAge)
    ensures GetUsers(ctx, p, today) == GetUsers(ctx, p, otherDay)
  {
  }

  /**
   * Outside the defaults the window keeps the users aged `minAge` to
   * `maxAge` in completed years, and also those born exactly on its lower
   * end, the day `AddYears` gives for `maxAge + 1` years back: that end is
   * inclusive.
   */
  lemma AgeRuleByAge(minAge: int, maxAge: int, today: Date, dob: Date)
    requires ValidDate(today) && ValidDate(dob)
    requires !DefaultAges(minAge, maxAge) && AgeWindowDefined(minAge, maxAge, today)
    ensures AgeRule(minAge, maxAge, today, dob) <==>
              && Age(dob, today) >= minAge
              && (Age(dob, today) <= maxAge || dob == MinDateOfBirth(maxAge, today).value)
  {
    var lo := MinDateOfBirth(maxAge, today).value;
    BornByYearsAgo(dob, today, minAge);
    BornByYearsAgo(dob, today, maxAge + 1);
    assert DateLe(lo, dob) <==> !DateLe(dob, lo) || dob == lo;
  }

  /** Both ends of the birth-date window are kept. */
  lemma WindowEndsIncluded(minAge: int, maxAge: int, today: Date)
    requires !DefaultAges(minAge, maxAge) && AgeWindowDefined(minAge, maxAge, today)
    requires DateLe(MinDateOfBirth(maxAge, today).value, MaxDateOfBirth(minAge, today).value)
    ensures AgeRule(minAge, maxAge, today, MinDateOfBirth(maxAge, today).value)
    ensures AgeRule(minAge, maxAge, today, MaxDateOfBirth(minAge, today).value)
  {
  }

  /**
   * On February 29, when the year `maxAge + 1` years back is a common year,
   * the lower end falls on February 28 of that year, so someone whose
   * birthday was yesterday is kept at `maxAge + 1`. When that year is a leap
   * year, the lower end stays February 29 and the one kept at `maxAge + 1`
   * has their birthday today.
   */
  lemma LeapDayLowerEnd()
    ensures MinDateOfBirth(30, Date(2024, 2, 29)) == Some(Date(1993, 2, 28))
    ensures AgeRule(18, 30, Date(2024, 2, 29), Date(1993, 2, 28))
    ensures Age(Date(1993, 2, 28), Date(2024, 2, 29)) == 31
    ensures MinDateOfBirth(31, Date(2024, 2, 29)) == Some(Date(1992, 2, 29))
    ensures AgeRule(18, 31, Date(2024, 2, 29), Date(1992, 2, 29))
    ensures Age(Date(1992, 2, 29), Date(2024, 2, 29)) == 32
  {
  }

  /** Every user the age window keeps is at least `minAge` and at most `maxAge + 1` years old. */
  lemma AgeWindowBounds(minAge: int, maxAge: int, today: Date, dob: Date)
    requires ValidDate(today) && ValidDate(dob)
    requires !DefaultAges(minAge, maxAge) && AgeRule(minAge, maxAge, today, dob)
    ensures minAge <= Age(dob, today) <= maxAge + 1
    ensures Age(dob, today) == maxAge + 1 ==> dob == MinDateOfBirth(maxAge, today).value
  {
    AgeRuleByAge(minAge, maxAge, today, dob);
    AgeOnYearsAgo(today, maxAge + 1);
  }

  // ---------------------------------------------------------------------
  // Messages

  /**
   * The messages in the requested container, most recently sent first:
   * "Inbox" holds what the user received and has not deleted, "Outbox" what
   * the user sent and has not deleted, and any other container the unread
   * part of the inbox.
   */
  function GetMessagesForUser(ctx: DataContext, mp: MessageParams): (r: seq<Message>)
    ensures SortedDesc(r, SentOf)
    ensures mp.messageContainer == "Inbox" ==> forall m ::
              multiset(r)[m] == if m.recipientId == mp.userId && !m.recipientDeleted then multiset(ctx.messages)[m] else 0
    ensures mp.messageContainer == "Outbox" ==> forall m ::
              multiset(r)[m] == if m.senderId == mp.userId && !m.senderDeleted then multiset(ctx.messages)[m] else 0
    ensures mp.messageContainer != "Inbox" && mp.messageContainer != "Outbox" ==> forall m ::
              multiset(r)[m] == if m.recipientId == mp.userId && !m.recipientDeleted && !m.isRead
                                then multiset(ctx.messages)[m] else 0
  {
    var uid := mp.userId;
    var matching :=
      if mp.messageContainer == "Inbox" then
        Filter(ctx.messages, (m: Message) => m.recipientId == uid && !m.recipientDeleted)
      else if mp.messageContainer == "Outbox" then
        Filter(ctx.messages, (m: Message) => m.senderId == uid && !m.senderDeleted)
      else
        Filter(ctx.messages, (m: Message) => m.recipientId == uid && !m.recipientDeleted && !m.isRead);
    SortByDesc(matching, SentOf)
  }

  /**
   * Every listed message is a stored message of the requested container;
   * in particular a container never shows what its owner deleted, and the
   * default container never shows a read message.
   */
  lemma ContainerMembers(ctx: DataContext, mp: MessageParams, m: Message)
    requires m in GetMessagesForUser(ctx, mp)
    ensures m in ctx.messages
    ensures mp.messageContainer == "Inbox" ==> m.recipientId == mp.userId && !m.recipientDeleted
    ensures mp.messageContainer == "Outbox" ==> m.senderId == mp.userId && !m.senderDeleted
    ensures mp.messageContainer != "Inbox" && mp.messageContainer != "Outbox" ==>
              m.recipientId == mp.userId && !m.recipientDeleted && !m.isRead
  {
    var r := GetMessagesForUser(ctx, mp);
    assert multiset(r)[m] > 0;
  }

  /**
   * The thread predicate: a message to `userId` from `recipientId` that
   * `userId` has not deleted, or one from `userId` to `recipientId` that
   * `userId` has not deleted (C# binds && tighter than ||).
   */
  predicate InThread(userId: int, recipientId: int, m: Message) {
    (m.recipientId == userId && !m.recipientDeleted && m.senderId == recipientId) ||
    (m.recipientId == recipientId && m.senderId == userId && !m.senderDeleted)
  }

  /**
   * The conversation between `userId` and `recipientId` as `userId` sees it,
   * most recent first: what they received from the other and kept, and what
   * they sent to the other and kept.
   */
  function GetMessageThread(ctx: DataContext, userId: int, recipientId: int): (r: seq<Message>)
    ensures SortedDesc(r, SentOf)
    ensures forall m :: m in r <==> m in ctx.messages && InThread(userId, recipientId, m)
    ensures forall m :: multiset(r)[m] ==
              if InThread(userId, recipientId, m) then multiset(ctx.messages)[m] else 0
  {
    var r := SortByDesc(Filter(ctx.messages, (m: Message) => InThread(userId, recipientId, m)), SentOf);
    assert forall m :: m in r <==> multiset(r)[m] > 0;
    assert forall m :: m in ctx.messages <==> multiset(ctx.messages)[m] > 0;
    r
  }

  /**
   * A message the recipient deleted leaves the recipient's view of the
   * thread but stays in the sender's view and outbox while the sender keeps it.
   */
  lemma DeletedByRecipientIsOneSided(ctx: DataContext, m: Message)
    requires m in ctx.messages && m.recipientDeleted && !m.senderDeleted
    requires m.senderId != m.recipientId
    ensures m !in GetMessageThread(ctx, m.recipientId, m.senderId)
    ensures m in GetMessageThread(ctx, m.senderId, m.recipientId)
    ensures m in GetMessagesForUser(ctx, MessageParams(m.senderId, "Outbox"))
    ensures m !in GetMessagesForUser(ctx, MessageParams(m.recipientId, "Inbox"))
  {
    var outbox := GetMessagesForUser(ctx, MessageParams(m.senderId, "Outbox"));
    assert multiset(outbox)[m] == multiset(ctx.messages)[m] > 0;
  }

  /**
   * A message a user sends to themself stays in their thread after they
   * delete it as recipient, because it still matches as sent.
   */
  lemma SelfMessageSurvivesRecipientDelete(ctx: DataContext, m: Message)
    requires m in ctx.messages && m.senderId == m.recipientId && m.recipientDeleted && !m.senderDeleted
    ensures m in GetMessageThread(ctx, m.recipientId, m.recipientId)
  {
  }

  /** Without soft deletes, both participants see the same messages in a thread. */
  lemma ThreadSymmetricWithoutDeletes(ctx: DataContext, a: int, b: int)
    requires forall m :: m in ctx.messages ==> !m.senderDeleted && !m.recipientDeleted
    ensures multiset(GetMessageThread(ctx, a, b)) == multiset(GetMessageThread(ctx, b, a))
  {
    var ab, ba := GetMessageThread(ctx, a, b), GetMessageThread(ctx, b, a);
    assert forall m: Message :: !m.senderDeleted && !m.recipientDeleted ==>
      (InThread(a, b, m) <==> InThread(b, a, m));
    forall m ensures multiset(ab)[m] == multiset(ba)[m] {
      if m !in ctx.messages {
        assert multiset(ctx.messages)[m] == 0;
      }
    }
    assert multiset(ab) == multiset(ba);
  }
}
