# devnet-token-bot: membership gate and RPC URL allocator

A Dafny model of the Telegram bot in `bot.py`. The bot keeps two SQLite
tables: `members`, the Telegram usernames allowed to use it, and `urls`, a
pool of RPC endpoint URLs that are handed out one per request. Three command
handlers change or read those tables, each wrapped by the `restricted`
access gate:

- `/start` replies with a welcome text;
- `/addmember <handle>` normalises the handle (every `@` removed, lower-cased)
  and inserts it unless some member already matches it case-insensitively;
- `/gettoken <email_or_handle>` classifies its argument as an email or a
  handle, takes the unassigned URL row with the smallest `id`, records the
  email or handle and a timestamp in that row, and replies with the URL.

At start-up `init_db` inserts the bootstrap member `xidea404` unless a member
already matches it.

The tables are state of the class `Bot.Database`: `members` is a
`seq<string>` and `urls` a `seq<Row>` ordered by the AUTOINCREMENT `id`.
`Valid()` holds the UNIQUE constraint on `username` and the strictly
increasing ids. Every handler is a method on that class that changes the
fields in place. Each handler is also described by a pure function of the
old table (`AddMemberResult`, `GetTokenResult`, and `Restricted` for the
gate), and the method's postcondition ties the reply and the new table to
that function. The lemmas state the properties of those functions: what
changes, what does not, which row is selected, and what the error replies
leave alone. The reply texts are the constants in `Bot.Message`.

Modules: `Wrappers` (Option), `Text` (ASCII lower-casing and `@` removal),
`Members` (the membership query and seeding), `Pool` (URL rows, argument
classification, the free-row search and the assignment update), and `Bot`
(replies, the gate, the handlers and the `Database` class).

Two behaviours one might expect of such a bot are not what the code does,
and the model follows the code:

- An allocator might be expected to give a requester who already holds a
  URL the same URL again. `gettoken` never looks for an earlier assignment,
  so each request uses up a new row. `GetTokenRepeatTakesNewRow` proves this.
- A handle normaliser might be expected to strip only a leading `@`. The
  code removes every `@` (`replace("@", "")`).

## Model

| member | source | states |
|---|---|---|
| Text.LowerChar | bot.py:62 | the result is never an upper-case ASCII letter, and only 'A'..'Z' change, each by +32 (to its lower-case letter) |
| Text.Lower | bot.py:62 | lower-casing keeps the length and maps every character through LowerChar |
| Text.LowerKeepsAt | bot.py:134 | lower-casing neither creates nor removes an '@' |
| Text.StripAt | bot.py:102 | the result has no '@', keeps every other character with its multiplicity, is no longer than the input, and is the input itself when it had no '@' |
| Text.StripAtAppend | bot.py:102 | removing '@' from a concatenation is the concatenation of the stripped parts, so the kept characters keep their order |
| Text.LowerStripAtCommute | bot.py:134 | lower-casing then removing '@' gives the same string as removing '@' then lower-casing |
| Text.Normalize | bot.py:102 | a normalised handle has no '@', is already lower-case, is no longer than the input, and is exactly the lower-cased input with every '@' removed |
| Text.NormalizeIdempotent | bot.py:134 | normalising twice is the same as normalising once |
| Text.NormalizeAtFoo | bot.py:102 | the handle `@Foo` normalises to `foo` |
| Members.Unique | bot.py:37 | the UNIQUE constraint on `username`: no two rows hold the same string |
| Members.IsMember | bot.py:60-63 | true exactly when some stored username equals the query after both are lower-cased |
| Members.IsMemberIgnoresCase | bot.py:62 | two usernames equal up to case are both members or both not |
| Members.IsMemberAppend | bot.py:112 | after a row is appended, the members are the old ones plus exactly the case variants of the new row |
| Members.AppendKeepsUnique | bot.py:37 | inserting a name that no row matches case-insensitively keeps the UNIQUE constraint on username |
| Members.CountMatchingIsMember | bot.py:50-51 | some row matches a username exactly when the count of matching rows is positive |
| Members.CountMatchingAppend | bot.py:52 | appending a row raises the count of rows matching a username by one exactly when the new row matches it |
| Members.Seed | bot.py:49-53 | after seeding, the bootstrap member matches some row; when some row already matched it the table is unchanged; otherwise exactly `xidea404` is appended and nothing else changes |
| Members.SeedIdempotent | bot.py:49-53 | seeding a second time leaves the members unchanged |
| Members.SeedLeavesOneBootstrap | bot.py:49-53 | from a table with at most one bootstrap row, seeding leaves exactly one |
| Members.SeedKeepsUnique | bot.py:50-52 | seeding keeps the UNIQUE constraint on username |
| Pool.IdsIncreasing | bot.py:42 | AUTOINCREMENT: the rows, in table order, have strictly increasing ids |
| Pool.Classify | bot.py:131-136 | exactly one of email and handle is set; it is a handle exactly when the argument starts with '@' or has no '@', and then the handle is the normalised argument; otherwise the email is the argument unchanged and has an '@' after its first character |
| Pool.ClassifyHandleStable | bot.py:131-136 | classifying a recorded non-empty handle again gives the same handle |
| Pool.FirstUnassigned | bot.py:139-145 | the position found holds an unassigned row and every earlier row is assigned; no position is found only when every row is assigned |
| Pool.FirstUnassignedHasSmallestId | bot.py:139-144 | with increasing ids, the row found has a smaller id than every other unassigned row |
| Pool.ExhaustedIffNoneFree | bot.py:145-147 | no row is found exactly when the count of unassigned rows is zero |
| Pool.CountUnassignedUpdate | bot.py:150-154 | replacing one row changes the unassigned count by the difference of the old and new rows' contributions |
| Pool.Assign | bot.py:150-154 | the UPDATE replaces only the row at the given position, setting email, handle and assigned_at; the table keeps its length |
| Pool.AssignEffect | bot.py:150-154 | the update keeps the row's id and url, sets email, handle and assigned_at; every other row, and so every already assigned row, is unchanged; the unassigned count drops by one; ids stay increasing |
| Bot.Message | bot.py:75-163 | the text of each reply: bot.py:75, 79, 90, 98, 107, 114, 125, 156 and 163 |
| Bot.Gate | bot.py:71-81 | a missing or empty username is refused with NeedUsername, a non-member with NotAuthorized, and only a member gets through |
| Bot.Restricted | bot.py:68-82 | a refused caller gets the refusal and the table stays as it was, so the handler has no effect; a member gets the handler's outcome |
| Bot.BootstrapAdmitted | bot.py:77 | after seeding, any case variant of the bootstrap username gets through the gate |
| Bot.AddMemberResult | bot.py:95-114 | the handler on the old members: only an Added reply changes the table, by appending exactly the added name, which matched no member before; every other reply leaves the members as they were |
| Bot.AddMemberWrongArity | bot.py:97-99 | an argument count other than one gives the usage reply and leaves the members unchanged |
| Bot.AddMemberEffect | bot.py:101-114 | with one argument: AlreadyMember exactly when the normalised name already matches a member, and then the members are unchanged; Added otherwise, with exactly that name appended; afterwards the members are the old ones plus every case variant of the name |
| Bot.AddAtFooThenFoo | bot.py:101-114 | `/addmember @Foo` makes `foo` a member |
| Bot.AddMemberKeepsUnique | bot.py:104-113 | the handler keeps the UNIQUE constraint, so its INSERT cannot violate it |
| Bot.GetTokenResult | bot.py:122-163 | the handler on the old urls: the table keeps its length; every reply other than a URL leaves it unchanged; a URL reply is the url of some unassigned row |
| Bot.GetTokenReplies | bot.py:124-163 | usage reply exactly for an argument count other than one; "no URLs" exactly when one argument is given and no row is unassigned; a URL exactly when one argument is given and some row is unassigned; every reply other than a URL leaves the urls unchanged |
| Bot.GetTokenAllocates | bot.py:139-156 | a successful request replies with the url of the unassigned row with the smallest id; that row keeps id and url and gets the classified email/handle and the timestamp; every other row and every assigned row is unchanged; the unassigned count drops by one; ids stay increasing |
| Bot.GetTokenRepeatTakesNewRow | bot.py:139-156 | a second request with the same argument never returns the first row: it takes a later row with a larger id, using up two rows in all, or gets "no URLs" exactly when the first request took the only free row |
| Bot.Database.constructor | bot.py:29-30 | opens tables holding the given rows |
| Bot.Database.InitDb | bot.py:33-53 | members become Seed(old members); urls are unchanged; the table invariant is kept |
| Bot.Database.FindUnassigned | bot.py:139-145 | the loop over urls returns exactly the position FirstUnassigned describes |
| Bot.Database.Start | bot.py:87-90 | the reply is the gate's refusal, or Welcome for a member |
| Bot.Database.HandleAddMember | bot.py:93-117 | reply and new members are AddMemberResult of the old members; urls are unchanged; the invariant is kept |
| Bot.Database.AddMember | bot.py:92-93 | reply and new members are those of Restricted around AddMemberResult; urls are unchanged |
| Bot.Database.HandleGetToken | bot.py:120-163 | reply and new urls are GetTokenResult of the old urls; members are unchanged; the invariant is kept |
| Bot.Database.GetToken | bot.py:119-120 | reply and new urls are those of Restricted around GetTokenResult; members are unchanged |

## Left out

- The Telegram transport (`Update`, `reply_text`, `ApplicationBuilder`, `run_polling`, `main`, bot.py:168-183): replies are return values, with their texts in `Bot.Message`. A caller's identity is reduced to its optional username, because `user.id` is only logged.
- Logging and the `dotenv` environment loading (bot.py:12-23): they have no logical effect.
- The SQLite connection, cursor and `commit` (bot.py:29-30, 53, 113, 155): the tables are fields of `Database`. `CREATE TABLE IF NOT EXISTS` is modelled by the constructor accepting whatever the tables already hold. The members' `id` column is never read, so it is not modelled.
- The `sqlite3.Error` branches (bot.py:115-117, 158-160): they are failures of a foreign library. `AddMemberKeepsUnique` shows that the INSERT cannot break the UNIQUE constraint.
- The value of `CURRENT_TIMESTAMP` (bot.py:152): it is the parameter `at` of `GetToken`.
- Concurrent handlers and the race between the SELECT and the UPDATE in `gettoken` (bot.py:139-154): each handler is one atomic step.
- Unicode lower-casing: Python's `str.lower` and SQLite's ASCII-only `LOWER` are both modelled by ASCII `Lower`.
- The `IndexError` that an empty argument would raise at bot.py:133: `GetToken` requires `Tokens(args)`, since Telegram command arguments are non-empty tokens.
- Filling the `urls` pool: it is done outside the bot, so the constructor takes the existing rows.
