# Dating application repository queries in Dafny

This project models the read side of the dating application's data
repository (`DatingRepository`). The repository answers these queries over
the tables of its data context (users, photos, likes, messages):

- lookups by key (`GetPhoto`, `GetUser`, `GetMainPhotoForUser`, `GetLike`,
  `GetMessage`): the first matching row, or nothing;
- the likes of a user (`GetUserLikes`): the ids of the users who like a
  user, or of the users that user likes;
- the user listing (`GetUsers`): all users by descending last activity,
  without the requesting user, of the requested gender, optionally only
  likers or likees, optionally inside an age window, then optionally
  re-ordered by creation or by last activity;
- the message containers (`GetMessagesForUser`): inbox, outbox or unread
  inbox, most recently sent first;
- the conversation thread (`GetMessageThread`): the messages between two
  users that the viewing user has not soft-deleted, most recent first.

Each query is a Dafny function of a `DataContext` value holding one sequence
per table. The clock (`DateTime.Today`) is a parameter `today`. Exceptions
become `Option`/`Result` values. `GetUserLikes` dereferences a missing user
and throws; the model returns `None`, and the user listing returns
`Err(UserNotFound)`. `AddYears` throws out of range; the model returns
`Err(DateOutOfRange)`.

Modules:

- `Wrappers`: `Option` and `Result`.
- `Sequences`: the query operators as functions on sequences.
  - `Filter` is `Where` and `Project` is `Select`.
  - `FirstWhere` and `First` are `FirstOrDefault`.
  - `SortByDesc` is `OrderByDescending`, an insertion sort; its contract fixes the order only up to ties.
  - Lemmas: filtering keeps a sequence sorted and is idempotent; filtering
    then taking the first element is a find-first lookup.
- `Dates`: days of the calendar.
  - `AddYears` follows .NET: the leap day becomes February 28 in a common
    year, and an offset beyond 10000 years or a year outside 1..9999 fails.
  - `Age` (completed years) is the reference that the age window is
    checked against.
- `Entities`: the records and the data context.
- `DatingRepository`: the queries and the lemmas about them.

Some points of the source hold as written and are proved here:

- The likees step (line 50) passes the `Likers` flag. So with only `Likees`
  set, the listing keeps the users the requester likes. With both flags set,
  it filters by likers twice, and the `Likees` flag changes nothing
  (`LikeesFlagIgnoredWithLikers`).
- The lower end of the age window is inclusive. A user born exactly on it,
  the day `AddYears` gives for `maxAge + 1` years back, is listed at age
  `maxAge + 1` (`AgeRuleByAge`, `AgeWindowBounds`). Usually that is someone
  whose birthday is today. On February 29, when the year `maxAge + 1` years
  back is a common year, the lower end is February 28 of that year, so it is
  someone whose birthday was yesterday; when that year is a leap year, the
  lower end stays February 29 (`LeapDayLowerEnd`).
- At the default bounds 18/99 no birth-date filter runs at all. The
  listing then does not depend on `today` (`DefaultAgesIgnoreToday`).
- A message between two different users that the recipient deleted and the
  sender kept still shows in the sender's view of the thread and in the
  sender's outbox. It leaves only the recipient's views
  (`DeletedByRecipientIsOneSided`).
- The exception is a message sent to oneself. Deleting it as recipient
  leaves it in one's own thread, because it still matches as sent
  (`SelfMessageSurvivesRecipientDelete`).
- Orderings are non-increasing, not strict. Rows with equal timestamps may
  come in either order, and the contracts say nothing about that order.

## Model

| member | source | states |
|---|---|---|
| `Sequences.Filter` | DatingApp.API/Data/DatingRepository.cs:40 | each element occurs in the result as often as in the input if it satisfies the predicate, else not at all; so the result only removes elements and never alters one |
| `Sequences.Project` | DatingApp.API/Data/DatingRepository.cs:80 | the result has the input's length and holds the image of each element at its position |
| `Sequences.FirstIndex` | DatingApp.API/Data/DatingRepository.cs:26 | a returned index is the position of the earliest element that satisfies the predicate; with nothing returned, no element satisfies it |
| `Sequences.FirstWhere` | DatingApp.API/Data/DatingRepository.cs:26 | a returned element satisfies the predicate and no earlier element does; nothing is returned exactly when no element satisfies it |
| `Sequences.FirstOfFilter` | DatingApp.API/Data/DatingRepository.cs:91 | `Where(p)` followed by `FirstOrDefault()` equals looking up the first element that satisfies `p` |
| `Sequences.InsertDesc` | DatingApp.API/Data/DatingRepository.cs:38 | inserting into a sorted sequence gives a sorted sequence with exactly one more occurrence of the element |
| `Sequences.SortByDesc` | DatingApp.API/Data/DatingRepository.cs:38 | the result is sorted non-increasing by the key and is a permutation of the input |
| `Sequences.FilterKeepsSorted` | DatingApp.API/Data/DatingRepository.cs:38-58 | filtering a sorted sequence leaves it sorted, so the initial order survives the later filters |
| `Sequences.FilterIdempotent` | DatingApp.API/Data/DatingRepository.cs:44-52 | filtering twice by one predicate equals filtering once |
| `Sequences.FilterAll` | DatingApp.API/Data/DatingRepository.cs:80-82 | a filter every element passes returns the sequence unchanged |
| `Dates.DaysInMonth` | DatingApp.API/Data/DatingRepository.cs:55-56 | months have 28 to 31 days, and February has 29 exactly in leap years |
| `Dates.AddYears` | DatingApp.API/Data/DatingRepository.cs:55-56 | fails exactly for an offset beyond 10000 years or a year outside 1..9999; otherwise gives the same month in the shifted year, a valid date for a valid input, the same day when that day exists in the target year and the month's last day when it does not |
| `Dates.BornByYearsAgo` | DatingApp.API/Data/DatingRepository.cs:55-58 | a birth date is on or before the day k years before today exactly when the person is at least k years old |
| `Dates.AgeOnYearsAgo` | DatingApp.API/Data/DatingRepository.cs:55-56 | someone born on the day k years before today is k years old |
| `DatingRepository.GetPhoto` | DatingApp.API/Data/DatingRepository.cs:25-29 | a returned photo has the id and is the earliest such; nothing exactly when no photo has the id |
| `DatingRepository.GetUser` | DatingApp.API/Data/DatingRepository.cs:31-35 | a returned user has the id and is the earliest such; nothing exactly when no user has the id |
| `DatingRepository.GetMainPhotoForUser` | DatingApp.API/Data/DatingRepository.cs:90-92 | a returned photo is a main photo of the user and the earliest such; nothing exactly when the user has no main photo |
| `DatingRepository.GetLike` | DatingApp.API/Data/DatingRepository.cs:94-98 | a returned like is the like from `userId` to `recipientId` at its earliest position; nothing exactly when no such like is stored |
| `DatingRepository.GetMessage` | DatingApp.API/Data/DatingRepository.cs:100-102 | a returned message has the id and is the earliest such; nothing exactly when no message has the id |
| `DatingRepository.GetUserFindsStoredUser` | DatingApp.API/Data/DatingRepository.cs:31-35 | with unique user ids, looking up a stored user's id returns that user |
| `DatingRepository.MainPhotoIsTheMainPhoto` | DatingApp.API/Data/DatingRepository.cs:90-92 | if a user has at most one main photo, the lookup returns that photo |
| `DatingRepository.LikersOf` | DatingApp.API/Data/DatingRepository.cs:77 | the loaded `Likers` collection holds exactly the stored likes whose `LikeeId` is the user; this relationship mapping is an assumption, as the mapping is not part of this model |
| `DatingRepository.LikeesOf` | DatingApp.API/Data/DatingRepository.cs:77 | the loaded `Likees` collection holds exactly the stored likes whose `LikerId` is the user; this relationship mapping is an assumption, as the mapping is not part of this model |
| `DatingRepository.LikerIds` | DatingApp.API/Data/DatingRepository.cs:79-80 | an id is in the result exactly when that user likes the given user |
| `DatingRepository.LikeeIds` | DatingApp.API/Data/DatingRepository.cs:81-82 | an id is in the result exactly when the given user likes that user |
| `DatingRepository.GetUserLikes` | DatingApp.API/Data/DatingRepository.cs:76-84 | fails exactly when the user does not exist; with `likers` an id is returned exactly when that user likes the given user, otherwise exactly when the given user likes that user |
| `DatingRepository.LikeCollectionsNeedNoFilter` | DatingApp.API/Data/DatingRepository.cs:77-83 | the `Where` on the loaded `Likers`/`Likees` collections removes nothing |
| `DatingRepository.ApplyLikeFilters` | DatingApp.API/Data/DatingRepository.cs:44-52 | fails exactly when a like flag is set and the requester does not exist; otherwise keeps exactly the users that like the requester (`Likers`), or that the requester likes (only `Likees`), with their multiplicities; an input sorted by `LastActive` stays sorted |
| `DatingRepository.MinDateOfBirth` | DatingApp.API/Data/DatingRepository.cs:55 | defined exactly when `AddYears` does not throw; then a valid day on which one turns `MaxAge + 1` |
| `DatingRepository.MaxDateOfBirth` | DatingApp.API/Data/DatingRepository.cs:56 | defined exactly when `AddYears` does not throw; then a valid day on which one turns `MinAge` |
| `DatingRepository.ApplyAgeFilter` | DatingApp.API/Data/DatingRepository.cs:54-59 | at the default bounds 18/99 returns its input unchanged; otherwise fails exactly when a window end is outside the calendar, else keeps exactly the users born between the two ends, both inclusive, with their multiplicities; an input sorted by `LastActive` stays sorted |
| `DatingRepository.ApplyOrderBy` | DatingApp.API/Data/DatingRepository.cs:61-71 | a permutation of the input: unchanged for an empty `OrderBy`, sorted by creation for "created", sorted by last activity for any other value |
| `DatingRepository.Candidates` | DatingApp.API/Data/DatingRepository.cs:38-42 | sorted by last activity, holding every user other than the requester of the requested gender, each as often as stored |
| `DatingRepository.GetUsers` | DatingApp.API/Data/DatingRepository.cs:37-74 | fails with `UserNotFound` exactly when a like flag is set and the requester is missing, and with `DateOutOfRange` exactly when otherwise the age window is needed and lies outside the calendar; otherwise a permutation of the selected users, sorted by creation for "created" and by last activity in every other case |
| `DatingRepository.ListedIffSelected` | DatingApp.API/Data/DatingRepository.cs:40-58 | a user is listed exactly when it is stored and meets every rule of the listing |
| `DatingRepository.NeverListsRequester` | DatingApp.API/Data/DatingRepository.cs:40-42 | no listed user is the requester, and every listed user has the requested gender |
| `DatingRepository.LikeesStepRepeatsLikers` | DatingApp.API/Data/DatingRepository.cs:44-52 | with `Likers` set, the like steps give the same result whether or not `Likees` is set |
| `DatingRepository.LikeesFlagIgnoredWithLikers` | DatingApp.API/Data/DatingRepository.cs:49-51 | with `Likers` set, setting `Likees` as well does not change the listing |
| `DatingRepository.DefaultAgesIgnoreToday` | DatingApp.API/Data/DatingRepository.cs:54 | at the default bounds the listing is the same on every day |
| `DatingRepository.AgeRuleByAge` | DatingApp.API/Data/DatingRepository.cs:54-58 | outside the defaults a user is kept exactly when aged at least `MinAge` and either at most `MaxAge` or born exactly on the lower end of the window (the day `AddYears` gives for `MaxAge + 1` years back) |
| `DatingRepository.WindowEndsIncluded` | DatingApp.API/Data/DatingRepository.cs:58 | birth dates on either end of a nonempty window are kept |
| `DatingRepository.AgeWindowBounds` | DatingApp.API/Data/DatingRepository.cs:55-58 | outside the default bounds, a kept user is `MinAge` to `MaxAge + 1` years old, and `MaxAge + 1` only when born exactly on the lower end of the window |
| `DatingRepository.LeapDayLowerEnd` | DatingApp.API/Data/DatingRepository.cs:55-58 | on February 29, 2024 with `MaxAge` 30 the lower end is February 28, 1993 (a common year), and a user born that day is kept at age 31; with `MaxAge` 31 it is February 29, 1992 (a leap year), and a user born that day is kept at age 32 |
| `DatingRepository.GetMessagesForUser` | DatingApp.API/Data/DatingRepository.cs:104-124 | sorted by sending time; a permutation of the messages received and not deleted ("Inbox"), sent and not deleted ("Outbox"), or received, not deleted and unread (any other container) |
| `DatingRepository.ContainerMembers` | DatingApp.API/Data/DatingRepository.cs:110-120 | every listed message is stored and belongs to the requested container, so no container shows what its owner deleted |
| `DatingRepository.GetMessageThread` | DatingApp.API/Data/DatingRepository.cs:126-138 | sorted by sending time; a message is included, as often as stored, exactly when it went from the other user to the viewer who kept it, or from the viewer to the other user and the viewer kept it |
| `DatingRepository.DeletedByRecipientIsOneSided` | DatingApp.API/Data/DatingRepository.cs:131-133 | a message between two different users that its recipient deleted and its sender kept is absent from the recipient's thread and inbox but present in the sender's thread and outbox |
| `DatingRepository.SelfMessageSurvivesRecipientDelete` | DatingApp.API/Data/DatingRepository.cs:131-132 | a message to oneself deleted only as recipient still appears in one's own thread |
| `DatingRepository.ThreadSymmetricWithoutDeletes` | DatingApp.API/Data/DatingRepository.cs:131-132 | with no soft deletes, both participants see the same messages in their thread |

## Left out

- `Add`, `Delete` and `SaveAll` stage and flush changes in the data context's change tracker. They are persistence and are not modelled.
- Paging: `PagedList<T>.CreateAsync` is not part of this model. The queries return the whole filtered, ordered sequence that would be handed to it.
- `async`/`Task` wrappers and eager loading (`Include`/`ThenInclude` of photos, sender and recipient) are not modelled. Results are plain records without navigation properties. The exception is a user's `Likers` and `Likees` collections, which `GetUserLikes` reads. They are modelled as the likes whose likee, or liker, is that user.
- The entity classes and `UserParams`/`MessageParams` are not part of this model. Their fields are the ones the queries use. A null `OrderBy` or container is modelled as the empty string, which the code treats alike.
- `DateTime.Today` is the parameter `today`. Birth dates are whole days; a time of day on a stored birth date is not modelled.
- Timestamps (`Created`, `LastActive`, `MessageSent`) are integers, compared only by order.
- Row order: `FirstOrDefault` without an ordering, and ties under `OrderByDescending`, are decided by the store. The model uses table order and a stable sort. Only the lookups' "earliest" statements depend on that choice.
- A null `Gender` is not modelled: `Gender` is a plain string on both sides. In the source, a null `userParams.Gender` at line 42 matches only users whose stored gender is also null.
- String comparisons (`Gender`, container names, `OrderBy`) are ordinal. A database collation could compare them differently; that is not modelled.
- 32-bit ages: for the smallest `int`, `-MaxAge` wraps and the following `- 1` wraps back, so the two wraps cancel and the value equals the unbounded one; `-MinAge` wraps only for the smallest `int`, where `AddYears` throws with or without the wrap. So ages are unbounded integers.
- `DatingRepository.ApplyLikeFilters`: the source runs the likes lookup once for each flag that is set. The model runs it once, because both runs use the same arguments on the same data and so return the same list.
- The Angular error interceptor, the controllers and the Angular module wiring are not modelled. They are HTTP and UI glue over framework types.
