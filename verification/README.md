# Ticketing system API — a Dafny model

This project models the core of a small ticketing backend. Users log in with
a username and password and receive a bearer token. With that token they open
tickets, attach work orders to tickets, and move both through the statuses
OPEN, ON_PROGRESS and DONE. They can also flag a work order as notified and
list both tables.

The model is a set of pure functions over an immutable `Store`. The store
holds the user table, the ticket table, the work-order table, and the two
auto-increment counters the database would keep. Each HTTP handler becomes a
function of a store and its request parameters. A handler that writes, and
the two list handlers, return a `Step`: the response (`Ok`, `NotFound`,
`Unauthorized`, or `ServerError` for an exception the handler would throw)
paired with the store after the save. The login handler writes nothing and
returns the bare response; `Lifecycle.Dispatch` pairs it with the unchanged
store.

Modules:

- `Wrappers`: `Option` and the `Byte` type.
- `Base64`: base 64 encoding and strict decoding, as in section 4 of
  RFC 4648. It is the encoding that stored passwords use.
- `Utf8`: UTF-8 encoding of strings. Decoding replaces malformed input with
  U+FFFD, one replacement per maximal ill-formed subpart, as the platform's
  UTF-8 decoder does.
- `Tables`: the sorted key list of a finite table, used to list its rows.
- `Data`: the `Status` enum, the `User`, `Ticket` and `WorkOrder` records,
  the `Store`, the invariant `Valid` every reachable store satisfies, and
  the seeded store with its administrator account.
- `Handlers`: the login handler and the eight ticket and work-order handlers.
- `Lifecycle`: the route table with its authorization gate, runs of requests
  from the seeded store, and properties that span several handlers.

Facts about the handlers the model keeps as they are:

- The handlers set any status from any status, so there is no transition
  guard (`LastStatusWins`, `NoCrossEntityGuards`).
- `POST /tickets` checks nothing about its strings and accepts empty ones.
- A failed login answers 401 Unauthorized.

## Model

| member | source | states |
|---|---|---|
| Base64.Encode | TicketingSystemApi/Data/TicketingContext.cs:27 | The encoded text has four characters for every started group of three octets. |
| Base64.Decode | TicketingSystemApi/Program.cs:92 | Accepted text has a length that is a multiple of four and carries between 3n-2 and 3n octets for n groups. It is empty exactly when the text is. |
| Base64.DecodableIffEncoding | TicketingSystemApi/Program.cs:92 | The model's decoder accepts a text exactly when it is the encoding of some octet string. Every other text makes the model's read answer ServerError. The platform also throws on these texts, apart from the white-space and leftover-bit cases listed under Base64.Decode in "## Left out". |
| Base64.DecodeEncode | TicketingSystemApi/Data/TicketingContext.cs:27 | Decoding the encoding of any octet string gives back exactly that octet string. |
| Base64.EncodeDecode | TicketingSystemApi/Program.cs:92 | Any text the decoder accepts is the encoding of what it decodes to, so accepted text is canonical. |
| Base64.DecodeIffEncode | TicketingSystemApi/Program.cs:92 | Text decodes to given octets exactly when it is their encoding, in both directions. |
| Utf8.EncodeChar | TicketingSystemApi/Data/TicketingContext.cs:27 | One character becomes one to four octets, and a single octet exactly for ASCII. |
| Utf8.Encode | TicketingSystemApi/Data/TicketingContext.cs:27 | A string of n characters becomes between n and 4n octets. |
| Utf8.Decode | TicketingSystemApi/Program.cs:92 | Decoding never yields more characters than there are octets, because each character consumes at least one octet. |
| Utf8.DecodeHeadEncodeChar | TicketingSystemApi/Program.cs:92 | The decoder reads back the first encoded character and consumes exactly its octets, whatever follows. |
| Utf8.DecodeEncode | TicketingSystemApi/Program.cs:92 | Decoding the UTF-8 encoding of a string gives back that string. |
| Data.StatusHasThreeValues | TicketingSystemApi/Data/TicketingContext.cs:5-10 | The status enum has exactly the three ordinals 0, 1 and 2, and each maps back to its status. |
| Data.EncodePassword | TicketingSystemApi/Data/TicketingContext.cs:27 | The stored text decodes as base 64 to exactly the UTF-8 octets of the password. Its length is a multiple of four, and it is empty only for the empty password. |
| Data.DecodePassword | TicketingSystemApi/Program.cs:92 | A stored password can be read back exactly when its text is a base 64 encoding of some octets. Otherwise the model's read fails, as the platform's does apart from the cases listed under Base64.Decode in "## Left out". |
| Data.DecodeEncodePassword | TicketingSystemApi/Data/TicketingContext.cs:27 | A password stored as base 64 of its UTF-8 octets reads back as exactly the original password. |
| Data.Seed | TicketingSystemApi/Data/TicketingContext.cs:18-30 | The first store holds one user, id 1, named admin, whose stored password reads back as admin123. It has no tickets or work orders, and it satisfies the store invariant. |
| Handlers.Matching | TicketingSystemApi/Program.cs:88 | The users fetched for a username are exactly the table's users with that username. |
| Handlers.AtMostOneMatch | TicketingSystemApi/Program.cs:88 | When usernames are unique, the lookup finds at most one user. |
| Handlers.Login | TicketingSystemApi/Program.cs:86-102 | A token is issued only for the supplied username, and only if some user has that username and a stored password that reads back as the supplied one. Login never answers NotFound. |
| Handlers.LoginCannotThrow | TicketingSystemApi/Program.cs:88-92 | On a valid store the lookup finds at most one user, and that user's stored password decodes, so neither call that could throw does. |
| Handlers.LoginSucceedsIffCredentials | TicketingSystemApi/Program.cs:90-101 | On a valid store, login succeeds exactly when the credentials are right. Otherwise it answers Unauthorized. |
| Handlers.CreateTicket | TicketingSystemApi/Program.cs:106-117 | The new ticket is OPEN and carries the given title, description and clock reading. It is stored under its id. Every other ticket, the work orders, the users and the work-order counter stay as they were. On a valid store the id is fresh, old tickets are kept, and validity is preserved. |
| Handlers.CreateWorkOrder | TicketingSystemApi/Program.cs:123-147 | It answers NotFound exactly when the ticket is missing, and then changes nothing. Otherwise it stores an OPEN, unnotified work order with the given fields under its id and forces that ticket, alone, to ON_PROGRESS. Every other ticket and work order, the users and the ticket counter stay as they were. On a valid store the id is fresh, old work orders are kept, and validity is preserved. |
| Handlers.SendNotification | TicketingSystemApi/Program.cs:153-163 | It answers NotFound exactly when the work order is missing, and then changes nothing. Otherwise it sets only that work order's notification flag and keeps its status. |
| Handlers.SetWorkOrderStatus | TicketingSystemApi/Program.cs:171-177 | It answers NotFound exactly when the work order is missing, and then changes nothing. Otherwise only that work order's status changes, to the given one. |
| Handlers.AcceptWorkOrder | TicketingSystemApi/Program.cs:169-177 | It answers NotFound exactly when the work order is missing. Otherwise only that work order changes, to ON_PROGRESS, from any status. |
| Handlers.CompleteWorkOrder | TicketingSystemApi/Program.cs:183-191 | It answers NotFound exactly when the work order is missing. Otherwise only that work order changes, to DONE, from any status. |
| Handlers.CompleteTicket | TicketingSystemApi/Program.cs:197-205 | It answers NotFound exactly when the ticket is missing. Otherwise only that ticket changes, to DONE, and its work orders are untouched. |
| Handlers.ListTickets | TicketingSystemApi/Program.cs:211-214 | Every ticket is listed. Nothing else is listed, the list has one row per ticket, and the store is unchanged. |
| Handlers.ListTicketsAscending | TicketingSystemApi/Program.cs:213 | On a valid store the ticket list is in strictly increasing id order. |
| Handlers.ListWorkOrders | TicketingSystemApi/Program.cs:219-222 | Every work order is listed. Nothing else is listed, the list has one row per work order, and the store is unchanged. |
| Handlers.ListWorkOrdersAscending | TicketingSystemApi/Program.cs:221 | On a valid store the work-order list is in strictly increasing id order. |
| Tables.Sorted | TicketingSystemApi/Program.cs:213 | The key list is strictly increasing and holds exactly the keys of the table. |
| Tables.Rows | TicketingSystemApi/Program.cs:213 | A table's rows are listed in key order, one per key, and every row appears. |
| Lifecycle.Dispatch | TicketingSystemApi/Program.cs:86-224 | Without a token every route but login is refused with Unauthorized before its handler runs. Login and the two lists never change the store. Every route preserves the store invariant. |
| Lifecycle.DispatchEvolves | TicketingSystemApi/Program.cs:106-205 | On a valid store, no route removes a row or changes users. A route changes no ticket field but status, and no work-order field but status and the notification flag. It never clears that flag. |
| Lifecycle.Run | TicketingSystemApi/Program.cs:86-224 | Any sequence of requests from a valid store ends in a valid store that evolves from it as above. |
| Lifecycle.ReachableStoresAreValid | TicketingSystemApi/Data/TicketingContext.cs:18-30 | Every store reachable from the seeded store by any requests satisfies the invariant. |
| Lifecycle.SendNotificationIdempotent | TicketingSystemApi/Program.cs:153-163 | Sending a notification twice is the same as sending it once. |
| Lifecycle.LastStatusWins | TicketingSystemApi/Program.cs:169-191 | With no transition guard, two status changes in a row equal the last one alone. |
| Lifecycle.TicketAndWorkOrderStatusesIndependent | TicketingSystemApi/Program.cs:183-205 | Completing a ticket and completing a work order commute. |
| Lifecycle.CreatedTicketIsListed | TicketingSystemApi/Program.cs:106-117 | On a valid store, a created ticket appears in the ticket list, which grows by exactly one. |
| Lifecycle.CreateWorkOrderAllOrNothing | TicketingSystemApi/Program.cs:136-147 | On a valid store, either the new work order is listed and its ticket is listed as ON_PROGRESS, or the answer is NotFound and both lists are unchanged. |
| Lifecycle.SeedLogin | TicketingSystemApi/Data/TicketingContext.cs:20-27 | On the seeded store, login succeeds exactly for admin with admin123. |
| Lifecycle.MissingTicketScenario | TicketingSystemApi/Program.cs:136-140 | A work order for ticket 999 on the seeded store is refused with NotFound, and the work-order list stays empty. |
| Lifecycle.TicketLifeScenario | TicketingSystemApi/Program.cs:86-222 | The scenario runs from the seeded store. Logging in as admin succeeds. The new ticket gets id 1 and is OPEN. The work order gets id 1 and moves the ticket to ON_PROGRESS. Completing the work order and then the ticket leaves one DONE row in each list. |
| Lifecycle.NoCrossEntityGuards | TicketingSystemApi/Program.cs:136-205 | A ticket can be DONE while its work order is OPEN. A new work order moves a DONE ticket back to ON_PROGRESS. |

## Left out

- Token signing, expiry, issuer, audience and the signing key are not modelled. A token is the username it names. Whether a request carries a valid token is a boolean parameter of `Dispatch`.
- HTTP hosting, HTTPS redirection, Swagger, the route strings and parameter binding are not modelled. Nor are the 400 answers for parameters that do not bind, such as a non-numeric id.
- The database engine and EF Core change tracking are not modelled. Each handler's single save is one atomic store update, and requests run one at a time. Concurrent requests and async scheduling are outside the model.
- The wall clock is a `Timestamp` parameter of the creating handlers, read once per request.
- Handlers.Login: username matching is exact, as the C# `==` in the query reads. The database collation can make the lookup case-insensitive and accent-insensitive, and a PAD SPACE collation ignores trailing spaces. None of that is modelled. `Lifecycle.SeedLogin`'s "exactly admin" holds under the exact reading.
- Base64.Decode: decoding is strict. The decoder rejects white space, missing padding and non-zero padding bits. The platform decoder skips white space and may ignore the leftover bits of a padded group. So when a stored password text holds white space, or a padded group with non-zero leftover bits (such as `QR==`), the model answers ServerError where the platform may decode.
- Utf8.Encode: characters are Unicode scalar values, so the lone UTF-16 surrogates a platform string can hold are not modelled.
- Handlers.CreateTicket: the fresh-id and validity claims hold only on a valid store. An arbitrary store may already hold a row under the next counter value.
- Handlers.CreateWorkOrder: the fresh-id claim and keeping the old work orders hold only on a valid store, for the same reason.
- Lifecycle.DispatchEvolves: it holds only on a valid store, because on an arbitrary one a creating route can overwrite the row under the next counter value.
- Handlers.ListTickets: the handler has no ORDER BY, so the row order is the database's. The model fixes ascending id order, which is the primary-key order of a table scan.
- Handlers.ListWorkOrders: the row order is ascending id, for the same reason as the ticket list.
- 32-bit overflow of ids and auto-increment counters is not modelled. Ids are unbounded integers.
- The `WorkOrder.Ticket` navigation property is not modelled; a work order refers to its ticket by `ticketId` only.
- The error message text of the NotFound answer is not modelled.
