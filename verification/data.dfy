/**
 * The persistent schema of the ticketing system: the status enumeration,
 * the user, ticket and work-order records, the store that holds them and
 * the administrator account seeded when the schema is created.
 */
module Data {
  import opened Wrappers
  import Base64
  import Utf8

  /** The lifecycle status shared by tickets and work orders. */
  datatype Status = Open | OnProgress | Done

  /** The integer behind each status (OPEN = 0, ON_PROGRESS = 1, DONE = 2),
      which is what the store keeps in a status column. */
  function Ordinal(s: Status): (n: int)
    ensures 0 <= n < 3
  {
    match s
    case Open => 0
    case OnProgress => 1
    case Done => 2
  }

  /** The status stored as `n`, if any. */
  function StatusOf(n: int): (r: Option<Status>)
    ensures r.Some? <==> 0 <= n < 3
  {
    if n == 0 then Some(Open)
    else if n == 1 then Some(OnProgress)
    else if n == 2 then Some(Done)
    else None
  }

  /** There are exactly three statuses: `Ordinal` and `StatusOf` are
      inverse bijections between them and {0, 1, 2}. */
  lemma StatusHasThreeValues(s: Status, n: int)
    ensures StatusOf(Ordinal(s)) == Some(s)
    ensures 0 <= n < 3 ==> Ordinal(StatusOf(n).value) == n
  {
  }

  /** A creation time, supplied by the caller in place of the wall clock. */
  type Timestamp = int

  /** A login account; `password` holds the encoded password text. */
  datatype User = User(id: int, username: string, password: string)

  datatype Ticket = Ticket(
    id: int,
    title: string,
    description: string,
    status: Status,
    createdAt: Timestamp)

  /** A work order names the one ticket it belongs to by `ticketId`; the
      ticket holds no list of its work orders, so the two statuses are
      independent fields. */
  datatype WorkOrder = WorkOrder(
    id: int,
    ticketId: int,
    assignedTo: string,
    details: string,
    status: Status,
    createdAt: Timestamp,
    internal: bool,
    notificationSent: bool)

  /** The database: the user table, the ticket and work-order tables keyed
      by id, and the next id each auto-increment column will hand out. */
  datatype Store = Store(
    users: seq<User>,
    tickets: map<int, Ticket>,
    workOrders: map<int, WorkOrder>,
    nextTicketId: int,
    nextWorkOrderId: int)

  /** How a password is stored: its UTF-8 octets in base 64 text. */
  function EncodePassword(p: string): (r: string)
    ensures Base64.Decode(r) == Some(Utf8.Encode(p))
    ensures |r| % 4 == 0 && (|r| == 0 <==> |p| == 0)
  {
    Base64.DecodeEncode(Utf8.Encode(p));
    Base64.Encode(Utf8.Encode(p))
  }

  /** How the login check reads a stored password back; `None` when the
      stored text is not the strict base 64 encoding of any octets, where
      the model's login answers ServerError. The platform decoder throws on
      these too, except for white space and non-zero leftover bits, which
      it may accept. */
  function DecodePassword(stored: string): (r: Option<string>)
    ensures r.Some? <==> exists b :: Base64.Encode(b) == stored
  {
    Base64.DecodableIffEncoding(stored);
    match Base64.Decode(stored)
    case None => None
    case Some(octets) => Some(Utf8.Decode(octets))
  }

  /** Every password survives being stored and read back. */
  lemma DecodeEncodePassword(p: string)
    ensures DecodePassword(EncodePassword(p)) == Some(p)
  {
    Base64.DecodeEncode(Utf8.Encode(p));
    Utf8.DecodeEncode(p);
  }

  predicate UniqueUsernames(users: seq<User>) {
    forall i, j :: 0 <= i < j < |users| ==> users[i].username != users[j].username
  }

  /** What every reachable store satisfies: each row sits under its own id,
      ids come from below the auto-increment counters, every work order's
      ticket exists, usernames are unique and stored passwords decode. */
  predicate Valid(st: Store) {
    && 1 <= st.nextTicketId
    && 1 <= st.nextWorkOrderId
    && (forall id :: id in st.tickets ==> st.tickets[id].id == id && 1 <= id < st.nextTicketId)
    && (forall id :: id in st.workOrders ==>
          st.workOrders[id].id == id && 1 <= id < st.nextWorkOrderId
          && st.workOrders[id].ticketId in st.tickets)
    && UniqueUsernames(st.users)
    && (forall i :: 0 <= i < |st.users| ==> DecodePassword(st.users[i].password).Some?)
  }

  const AdminUsername: string := "admin"
  const AdminPassword: string := "admin123"

  /** The store as first created: the administrator account (id 1,
      username "admin", password "admin123" stored encoded) and nothing
      else. */
  function Seed(): (st: Store)
    ensures Valid(st)
    ensures |st.users| == 1 && st.users[0].id == 1 && st.users[0].username == AdminUsername
    ensures DecodePassword(st.users[0].password) == Some(AdminPassword)
    ensures st.tickets == map[] && st.workOrders == map[]
    ensures st.nextTicketId == 1 && st.nextWorkOrderId == 1
  {
    DecodeEncodePassword(AdminPassword);
    Store([User(1, AdminUsername, EncodePassword(AdminPassword))], map[], map[], 1, 1)
  }
}
