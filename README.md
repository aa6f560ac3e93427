# Lead attribution, request signatures, groups and notifications — a Dafny model

This project models the back end of a VK mini-app that attributes leads to
collectors. It verifies in Dafny 4.11, and it covers four parts of the
service:

- **Lead ledger and analytics** (`lead_ledger.dfy`, module `LeadLedger`).
  - The `leads` table and the `collector_lead` link table live in a
    `LeadStore` object: leads in insertion order, and links keyed by their
    composite key (collector id, lead id).
  - The store also holds the next value of the lead id sequence and the ids
    of the `collectors` table, which the link's foreign key refers to.
  - Its methods are `get_or_create_lead`, `create_lead_visit` and
    `submit_lead_request`.
  - `get_collector_analytics` is a pure read over the link table. "Now" is
    an integer timestamp parameter, and the conversion rate is a `real`.
- **Request signature check** (`request_auth.dfy`, module `RequestAuth`).
  - The query arrives as parsed (key, value) pairs. It becomes a dictionary
    in which the last value of a repeated key wins.
  - The "vk_" keys are sorted in Python's string order and URL-encoded.
    The signed text is then HMAC-SHA256'd and base 64 encoded.
  - One trailing "=" is stripped, and "+" and "/" are mapped into the
    URL-safe alphabet. The result is compared with the "sign" parameter.
  - `verification_group` is the decision over the query and the groups table.
- **Base 64** (`base64.dfy`, module `Base64`): section 4 of RFC 4648,
  modelled in full, with a decoder that proves the encoding loses nothing.
- **First-match reads** (`tables.dfy`, module `Tables`): the
  `select ... where ...` read with `first()` or `scalar` that both tables
  use, defined once over any row type.
- **Groups** (`groups.dfy`, module `Groups`).
  - The `groups` table is a `GroupTable` object with create, update and
    delete methods.
  - The two lookups are pure functions over its rows.
- **Notifications** (`notifications.dfy`, module `Notifications`).
  - The `notifications` table and the per-group status table live in a
    `NotificationStore`, with `create_notification` and
    `update_notification_status`.
  - `get_notifications_for_group` is a pure filter.

The database is sequential in this model: each operation runs alone, from
start to end.

Two constraint violations that a sequential run can reach are modelled
explicitly:
- A visit for a collector id that the `collectors` table does not hold
  breaks the foreign key (app/models/combined.py:8). The code catches the
  `IntegrityError` (app/crud/lead.py:49-53): the link insert is rolled
  back and the result is `None`, while the lead created on the way stays.
- A group whose platform id is already taken breaks the unique constraint
  on `groups.vk_id` (app/models/group.py:11). The code does not catch this
  `IntegrityError` (the commit at app/crud/group.py:11, the update at
  app/crud/group.py:29-34); the model turns the exception into the outcome
  `VkIdTaken`, with the table unchanged.

Separately, an update of a status row that does not exist returns `None`
(app/crud/notification.py:56-58).

Several behaviours of the code look unintended, and the model keeps each as
written:
- An unknown analytics period silently counts as a day
  (app/crud/lead.py:101-105). The endpoint documents only "day", "week" and
  "month" (app/routers/api/lead.py:64) and catches a `ValueError` for an
  invalid period (app/routers/api/lead.py:67-70) that
  `get_collector_analytics` never raises.
- A second submission returns `None`, the same as "no lead" and "no link"
  (app/crud/lead.py:94-95); the endpoint turns all three into one 404
  "not found or already submitted" (app/routers/api/lead.py:49-50).
- `create_lead_visit` returns the lead, not the link, on both success paths
  (app/crud/lead.py:35-38, 56-60), though its annotation names the link
  type.
- Its `IntegrityError` branch returns `None` without reading the link again
  (app/crud/lead.py:51-53); the endpoint reports every `None` as a 409
  "already recorded" (app/routers/api/lead.py:33-34), though a repeated
  visit returns the lead.
- Both analytics counts filter on `datetime_request`
  (app/crud/lead.py:113, 122). So, given the link invariant, every counted
  visit is a submission. `leads_count` equals `visit_count`, and the rate
  is 0.0 or 100.0 (`ConversionIsAllOrNothing`).

Other behaviour of the code as written, modelled as it is:
- The 401 exception in `verification_group` is constructed but never
  raised, so an invalid signature does not stop the dependency.
- The "system" guard in `update_notification_status` compares the query's
  result object with a string, so it never blocks hiding.

## Model

| member | source | states |
|---|---|---|
| Tables.IndexWhere | app/crud/group.py:23-24 | -1 exactly when no row satisfies the condition; otherwise the index of the first row that does |
| Tables.FirstWhere | app/crud/group.py:23-25 | `None` exactly when no row satisfies the condition; otherwise a row of the table that does |
| Groups.GroupById | app/crud/group.py:16-19 | `None` exactly when no row has the id; otherwise a row of the table with that id |
| Groups.GroupByVkId | app/crud/group.py:22-25 | `None` exactly when no row has the platform id; otherwise a row of the table with that platform id |
| Groups.GroupByVkIdFindsTheRow | app/models/group.py:10-11 | with ids and platform ids unique, the lookup by platform id returns exactly the row that carries it |
| Groups.WithoutId | app/crud/group.py:40-43 | the rows left by `DELETE ... WHERE id = id` are exactly the old rows with another id |
| Groups.DeleteRemovesOneRow | app/crud/group.py:40-43 | with unique ids, deleting removes one row when the id exists and none otherwise |
| Groups.WithoutIdKeepsKeyed | app/crud/group.py:40-43 | deleting keeps the table free of duplicate ids and platform ids |
| Groups.RenamedRowKeepsKeyed | app/crud/group.py:28-34 | giving one row a platform id no other row holds keeps the table keyed, and no other row has that row's id |
| Groups.GroupTable.constructor | app/models/group.py:10-12 | an empty, well-formed table |
| Groups.GroupTable.CreateGroup | app/crud/group.py:8-13 | a free platform id appends exactly one row: a fresh id, that platform id, and a collector count of 0; a taken one is refused with the table unchanged |
| Groups.GroupTable.UpdateGroup | app/crud/group.py:28-37 | a missing id changes nothing and yields "no group"; a platform id held by another row is refused; otherwise only that row's platform id changes, and every other row is kept |
| Groups.GroupTable.DeleteGroup | app/crud/group.py:40-43 | the result is true iff a row with the id existed; the new table is the old one minus that row, in order, still keyed |
| Base64.SextetValue | app/routers/dependencies/auth.py:48-54 | Table 1 of RFC 4648 read backwards: the inverse of the character for each 6-bit value |
| Base64.Encode | app/routers/dependencies/auth.py:48-54 | base 64 text is empty exactly when the input is |
| Base64.DecodeEncode | app/routers/dependencies/auth.py:48-54 | decoding undoes encoding for every byte string, so the encoding is injective |
| Base64.EncodedLength | app/routers/dependencies/auth.py:48-54 | four characters for every started group of three bytes |
| Base64.OnePadForTwoByteTail | app/routers/dependencies/auth.py:48-57 | a length of 2 modulo 3 encodes to alphabet characters followed by exactly one "=" |
| Base64.DigestEncoding | app/routers/dependencies/auth.py:48-57 | a 32-byte digest encodes to 44 characters: 43 alphabet characters and one "=" |
| RequestAuth.ToDict | app/routers/dependencies/auth.py:31-36 | every key of the pairs is in the dictionary, and the last pair's key maps to the last pair's value |
| RequestAuth.DictKeys | app/routers/dependencies/auth.py:31-36 | a key is in the parsed dictionary iff some pair carries it |
| RequestAuth.LastValueWins | app/routers/dependencies/auth.py:31-36 | the dictionary holds the value of a key's last occurrence |
| RequestAuth.LessEqTotal | app/routers/dependencies/auth.py:41-46 | Python's string order compares any two strings |
| RequestAuth.LessEqAntisymmetric | app/routers/dependencies/auth.py:41-46 | two strings ordered both ways are equal |
| RequestAuth.LessEqTransitive | app/routers/dependencies/auth.py:41-46 | the string order is transitive |
| RequestAuth.Insert | app/routers/dependencies/auth.py:41-46 | inserting into a strictly sorted list keeps it strictly sorted and adds exactly the new key |
| RequestAuth.SortedVkKeys | app/routers/dependencies/auth.py:41-46 | the keys to sign are strictly increasing, and they are exactly the dictionary's keys that start with "vk_" |
| RequestAuth.SortedUnique | app/routers/dependencies/auth.py:41-46 | two strictly sorted lists with the same members are equal, so the signed key order depends only on the key set |
| RequestAuth.SignedPairs | app/routers/dependencies/auth.py:47 | the signed pairs are exactly the dictionary's "vk_" keys, each with its dictionary value, in strictly increasing key order |
| RequestAuth.UrlEncode | app/routers/dependencies/auth.py:51 | the encoded text is empty only without pairs, starts with the first pair's escaped `k=v` field and ends with the last pair's |
| RequestAuth.HashCode | app/routers/dependencies/auth.py:48-54 | the base 64 text of the digest is 44 characters: 43 from the alphabet, then "=" |
| RequestAuth.StripOnePad | app/routers/dependencies/auth.py:56-57 | text ending in "=" loses exactly that character, and any other text is kept |
| RequestAuth.StripOnePadKeepsSecondPad | app/routers/dependencies/auth.py:56-57 | only one "=" is removed: text ending in "==" still ends in "=" |
| RequestAuth.Replace | app/routers/dependencies/auth.py:59 | `str.replace` of one character: same length, the character swapped at every position and no other change |
| RequestAuth.FixedHash | app/routers/dependencies/auth.py:56-59 | the expected signature has 43 characters, all URL-safe, with no "+" and no "/" |
| RequestAuth.CheckValidToken | app/routers/dependencies/auth.py:38-60 | the token is valid iff "sign" is present and equals the fixed hash |
| RequestAuth.MissingSignFails | app/routers/dependencies/auth.py:38-39 | a missing or empty "sign" fails whatever the secret and the other parameters |
| RequestAuth.SameVkParamsSameHash | app/routers/dependencies/auth.py:41-47 | two queries that agree on every "vk_" key have the same signed pairs and the same expected signature |
| RequestAuth.OtherParamsNotSigned | app/routers/dependencies/auth.py:41-47 | adding a parameter that does not start with "vk_", including "sign", leaves the expected signature unchanged |
| RequestAuth.LaterDuplicateWins | app/routers/dependencies/auth.py:31-36 | of two values for one key, the later one is kept, signed and compared; the earlier one has no effect |
| RequestAuth.UrlSafeReplaceInjective | app/routers/dependencies/auth.py:59 | on standard-alphabet text the two replacements can be undone |
| RequestAuth.SignatureDeterminesDigest | app/routers/dependencies/auth.py:48-60 | equal expected signatures imply equal HMAC digests: the strip and the alphabet change lose nothing |
| RequestAuth.VerificationGroup | app/routers/dependencies/auth.py:76-93 | HTTP 400 iff "vk_group_id" is missing or empty; "no group" iff it is present and no group has it; otherwise a group of the table with that platform id |
| RequestAuth.InvalidTokenNotRejected | app/routers/dependencies/auth.py:80-81 | the verdict is the same whether or not the signature was valid |
| LeadLedger.NewVisit | app/crud/lead.py:41-47 | the row a first visit inserts carries the given collector and lead ids, is well formed and not yet submitted |
| LeadLedger.Submitted | app/crud/lead.py:84-88 | the submission update keeps the key, sets `request_form` and stamps `now`, and keeps the link well formed |
| LeadLedger.LeadByVkId | app/crud/lead.py:140-146 | `None` exactly when no lead has the platform id; otherwise a lead of the table with it |
| LeadLedger.PendingKey | app/crud/lead.py:65-82 | a submission has a link to update iff the lead exists and its link for the collector exists and is not yet submitted |
| LeadLedger.LeadAppended | app/crud/lead.py:149-161 | appending a lead with the next id and a new platform id keeps ids and platform ids unique and every link sound |
| LeadLedger.LinkStored | app/models/combined.py:8-9 | a well-formed link for a known collector and a lead of the table, stored under its own key, keeps the link table sound |
| LeadLedger.LeadStore.constructor | app/models/combined.py:8-9 | an empty, well-formed ledger beside the given collectors |
| LeadLedger.LeadStore.GetOrCreateLead | app/crud/lead.py:138-161 | an existing lead is returned with the tables unchanged, so its stored name wins; otherwise exactly one lead is appended, with the next id, the name and no phone; the lookup then finds it |
| LeadLedger.LeadStore.CreateLeadVisit | app/crud/lead.py:18-60 | the lead is resolved first. An existing link leaves the links unchanged and returns the lead. An unknown collector returns `None` with the links unchanged. Otherwise exactly one visited, unsubmitted link is added for the pair. Every link stays well formed |
| LeadLedger.LeadStore.SubmitLeadRequest | app/crud/lead.py:63-95 | no lead, no link or an already submitted link returns `None` and changes nothing; otherwise exactly that pair's link is submitted at `now` and returned |
| LeadLedger.SubmitOnlyOnce | app/crud/lead.py:81-95 | right after a successful submission the same call finds nothing pending, so it returns `None` and leaves the stamped time alone |
| LeadLedger.VisitTwice | app/crud/lead.py:26-38 | two visits of one lead to one collector return the same result and add at most one link, the one for that pair |
| LeadLedger.WindowSeconds | app/crud/lead.py:101-105 | the window is 1, 7 or 30 days; "week" and "month" choose 7 and 30 days, and any other period string counts as a day |
| LeadLedger.CollectorAnalytics | app/crud/lead.py:99-134 | the analytics carry the collector's id; the rate is 0.0 without visits, and otherwise the rate times the visits equals the leads times 100 |
| LeadLedger.ConversionRate | app/crud/lead.py:127 | 0.0 without visits; otherwise the rate times the visits equals the leads times 100; between 0 and 100 when leads do not exceed visits |
| LeadLedger.CountedRowsAreSubmittedLinks | app/crud/lead.py:108-124 | both counts count only the collector's links whose request time is present and inside the window |
| LeadLedger.ConversionIsAllOrNothing | app/crud/lead.py:108-127 | with well-formed links both counts select the same rows, so the rate is 0.0 without visits and exactly 100.0 otherwise |
| LeadLedger.RatioOfEqualCounts | app/crud/lead.py:127 | equal positive counts give a rate of exactly 100.0 |
| LeadLedger.NoVisitsNoRate | app/crud/lead.py:127-134 | with no links in the window the analytics report zero counts and a 0.0 rate |
| Notifications.TypesOf | app/crud/notification.py:38-41 | the selected types are exactly those of notifications with that id |
| Notifications.ValuesFor | app/crud/notification.py:36-47 | the `values` dict holds exactly the supplied arguments, because the type guard compares a result object with a string and never blocks |
| Notifications.Apply | app/crud/notification.py:50-55 | a named column takes its new value, and an unnamed one keeps its old value |
| Notifications.ApplyIdentityAndIdempotent | app/crud/notification.py:50-55 | an update naming no column changes nothing, and applying one update twice equals applying it once |
| Notifications.NotificationsForGroup | app/crud/notification.py:23-30 | exactly the notifications that have a status row for the group |
| Notifications.SystemNotificationIsHideable | app/schemas/notification.py:8 | contrary to the schema's promise, a "system" notification is hidden by a request to hide it |
| Notifications.NotificationStore.constructor | app/models/notification.py:8-12 | empty, well-formed tables |
| Notifications.NotificationStore.CreateNotification | app/crud/notification.py:10-20 | exactly one notification is appended, with a fresh id and the given title, description, link and type; the status table is untouched |
| Notifications.NotificationStore.UpdateNotificationStatus | app/crud/notification.py:33-58 | a missing (group, notification) row returns `None` with nothing changed; otherwise only that row takes the values and is returned, and every other row is untouched |

## Left out

- HTTP routing, the application wiring, the Telegram and VK API clients, and the collector "CRUD" file, which holds only router code: these are I/O or wiring, not part of the modelled logic.
- Token parsing (`urlparse`, `parse_qsl`): the model starts from the parsed (key, value) pairs.
- HMAC-SHA256 and the escaping of `urlencode` (`quote_plus`) are foreign primitives. They are passed in as functions, and HMAC is assumed only to yield 32 bytes.
- `datetime.utcnow()` is the integer parameter `now`, and the floating-point conversion rate is a `real`.
- Concurrency: racing writers and their `IntegrityError` branches are left out.
  - The lead insert (app/crud/lead.py:155-159) cannot fail in a sequential run, so `get_or_create_lead` never returns `None`.
  - The `if not lead` branch of `create_lead_visit` is therefore unreachable.
- LeadLedger.LeadStore.CreateLeadVisit: the link insert's `IntegrityError` is modelled only for its sequential cause, an unknown collector id; a duplicate key from a racing writer is not.
- The ORM class for `collector_lead` declares only the composite key; the link's other columns are taken from the `CollectorLeadRead` schema, and writing them is modelled as succeeding.
- Groups.GroupTable.UpdateGroup: the `phone` column it also writes exists neither on the table nor on the request schema, so it is not modelled; only the platform id changes.
- Groups.GroupTable.CreateGroup: a refused insert does not consume a value of the id sequence here, though the database would; only the gap in ids differs.
- Groups.GroupTable.DeleteGroup: the foreign key from the notification status rows to the deleted group is not modelled, so a delete that the database would refuse succeeds here.
- The notification status table has no create operation in the modelled code; its rows are part of the initial state. Its foreign key to groups is not tracked.
- Notifications.NotificationsForGroup: the filter compares the many-to-one `group` relationship with a plain integer (app/crud/notification.py:27), which SQLAlchemy does not accept as a relationship comparison; it is modelled as a comparison of the row's `group_id` column. The join's row order is taken as table order.
- Notifications.NotificationStore.UpdateNotificationStatus: its `WHERE` also compares the many-to-one `group` relationship with a plain integer (app/crud/notification.py:52), which SQLAlchemy does not accept as a relationship comparison; it is modelled as a comparison of the row's `group_id` column.
- Notifications.NotificationStore.UpdateNotificationStatus: an update with no supplied values is modelled as leaving the row unchanged.
- `get_collector_analytics` is a function over the link table, so it cannot change any table.
- The lead's `phone` is never set by the modelled operations; it is always `None`.
