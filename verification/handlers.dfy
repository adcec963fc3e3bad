/**
 * The request handlers of the ticketing API, each a pure function from the
 * store before the request to the response and the store after it. A
 * handler looks its record up by id, answers NotFound when it is missing,
 * and otherwise overwrites one field; the only rule that spans two tables
 * is that creating a work order moves its ticket to ON_PROGRESS.
 */
module Handlers {
  import opened Wrappers
  import opened Data
  import Tables

  /** The HTTP outcome of a handler. `ServerError` stands for an exception
      escaping the handler. */
  datatype Response<T> = Ok(value: T) | NotFound | Unauthorized | ServerError

  /** A handler's response together with the store it leaves behind. */
  datatype Step<T> = Step(response: Response<T>, store: Store)

  /** A bearer token; of its claims only the subject is modelled. */
  datatype Token = Token(subject: string)

  // ---------------------------------------------------------------- login

  /** The users whose username is exactly `name`, in table order. */
  function Matching(users: seq<User>, name: string): (r: seq<User>)
    ensures forall u :: u in r <==> u in users && u.username == name
    ensures |r| <= |users|
  {
    if |users| == 0 then []
    else if users[0].username == name then [users[0]] + Matching(users[1..], name)
    else Matching(users[1..], name)
  }

  lemma {:induction false} NoMatch(users: seq<User>, name: string)
    requires forall u :: u in users ==> u.username != name
    ensures Matching(users, name) == []
  {
    if |users| > 0 {
      assert users[0] in users;
      NoMatch(users[1..], name);
    }
  }

  /** With unique usernames at most one user matches a name. */
  lemma {:induction false} AtMostOneMatch(users: seq<User>, name: string)
    ensures UniqueUsernames(users) ==> |Matching(users, name)| <= 1
  {
    if |users| > 0 && UniqueUsernames(users) {
      var rest := users[1..];
      assert UniqueUsernames(rest) by {
        forall i, j | 0 <= i < j < |rest|
          ensures rest[i].username != rest[j].username
        {
          assert rest[i] == users[i + 1] && rest[j] == users[j + 1];
        }
      }
      AtMostOneMatch(rest, name);
      if users[0].username == name {
        forall u | u in rest
          ensures u.username != name
        {
          var j :| 0 <= j < |rest| && rest[j] == u;
          assert users[j + 1] == u;
        }
        NoMatch(rest, name);
      }
    }
  }

  /** The credentials are right: some user has exactly this username and a
      stored password that reads back as exactly this password. */
  ghost predicate Credentials(st: Store, username: string, password: string) {
    exists u :: u in st.users && u.username == username && DecodePassword(u.password) == Some(password)
  }

  /** POST /login. The single user with that username is fetched; a second
      match or a stored password that is not base 64 makes the handler
      throw. A token is issued for that user's name when the decoded
      stored password equals the one supplied; every other case is
      Unauthorized, with no hint of which check failed. */
  function Login(st: Store, username: string, password: string): (r: Response<Token>)
    ensures r.Ok? ==> r.value == Token(username) && Credentials(st, username, password)
    ensures !r.NotFound?
  {
    var found := Matching(st.users, username);
    if |found| == 0 then Unauthorized
    else if |found| > 1 then ServerError
    else
      match DecodePassword(found[0].password)
      case None => ServerError
      case Some(stored) =>
        assert found[0] in st.users;
        if password == stored then Ok(Token(found[0].username)) else Unauthorized
  }

  /** On a valid store the user that Login fetches is unique and its
      stored password decodes, so the handler cannot throw. */
  lemma LoginCannotThrow(st: Store, username: string)
    requires Valid(st)
    ensures var found := Matching(st.users, username);
      |found| <= 1 && (|found| == 1 ==> DecodePassword(found[0].password).Some?)
  {
    var found := Matching(st.users, username);
    AtMostOneMatch(st.users, username);
    if |found| == 1 {
      assert found[0] in st.users;
      var i :| 0 <= i < |st.users| && st.users[i] == found[0];
      assert DecodePassword(st.users[i].password).Some?;
    }
  }

  /** On a valid store Login succeeds exactly for right credentials, and
      otherwise answers Unauthorized. */
  lemma LoginSucceedsIffCredentials(st: Store, username: string, password: string)
    requires Valid(st)
    ensures Login(st, username, password).Ok? <==> Credentials(st, username, password)
    ensures Login(st, username, password) == Ok(Token(username)) || Login(st, username, password) == Unauthorized
  {
    var found := Matching(st.users, username);
    LoginCannotThrow(st, username);
    if Credentials(st, username, password) {
      var u :| u in st.users && u.username == username && DecodePassword(u.password) == Some(password);
      assert u in found;
      assert found == [u];
      assert Login(st, username, password) == Ok(Token(username));
    }
  }

  // ------------------------------------------------------- record frames

  /** `t2` is `t1` with at most its status changed. */
  predicate SameTicketButStatus(t1: Ticket, t2: Ticket) {
    t2 == t1.(status := t2.status)
  }

  /** `w2` is `w1` with at most its status changed. */
  predicate SameWorkOrderButStatus(w1: WorkOrder, w2: WorkOrder) {
    w2 == w1.(status := w2.status)
  }

  /** `st2` differs from `st1` at most in the ticket stored under `id`,
      which both have. */
  predicate OnlyTicketChanged(st1: Store, st2: Store, id: int) {
    && id in st1.tickets
    && st2.tickets.Keys == st1.tickets.Keys
    && (forall k :: k in st1.tickets && k != id ==> st2.tickets[k] == st1.tickets[k])
    && st2.workOrders == st1.workOrders
    && st2.users == st1.users
    && st2.nextTicketId == st1.nextTicketId
    && st2.nextWorkOrderId == st1.nextWorkOrderId
  }

  /** `st2` differs from `st1` at most in the work order stored under
      `id`, which both have. */
  predicate OnlyWorkOrderChanged(st1: Store, st2: Store, id: int) {
    && id in st1.workOrders
    && st2.workOrders.Keys == st1.workOrders.Keys
    && (forall k :: k in st1.workOrders && k != id ==> st2.workOrders[k] == st1.workOrders[k])
    && st2.tickets == st1.tickets
    && st2.users == st1.users
    && st2.nextTicketId == st1.nextTicketId
    && st2.nextWorkOrderId == st1.nextWorkOrderId
  }

  // ------------------------------------------------------------ creation

  /** A ticket stored under the next ticket id of a valid store takes a
      fresh id and keeps the store valid. */
  lemma AddTicketKeepsValid(st: Store, t: Ticket)
    requires t.id == st.nextTicketId
    ensures Valid(st) ==>
      && t.id !in st.tickets
      && Valid(st.(tickets := st.tickets[t.id := t], nextTicketId := st.nextTicketId + 1))
  {
  }

  /** POST /tickets. Adds one OPEN ticket under the next ticket id. */
  function CreateTicket(st: Store, title: string, description: string, now: Timestamp): (s: Step<Ticket>)
    ensures s.response.Ok?
    ensures var t := s.response.value;
      && t.title == title && t.description == description && t.status == Open && t.createdAt == now
      && s.store.tickets.Keys == st.tickets.Keys + {t.id}
      && t.id in s.store.tickets && s.store.tickets[t.id] == t
      && s.store.workOrders == st.workOrders && s.store.users == st.users
      && s.store.nextWorkOrderId == st.nextWorkOrderId
      && (forall k :: k in st.tickets && k != t.id ==> s.store.tickets[k] == st.tickets[k])
    ensures Valid(st) ==> s.response.value.id !in st.tickets && |s.store.tickets| == |st.tickets| + 1
    ensures Valid(st) ==> forall k :: k in st.tickets ==> s.store.tickets[k] == st.tickets[k]
    ensures Valid(st) ==> Valid(s.store)
  {
    var t := Ticket(st.nextTicketId, title, description, Open, now);
    AddTicketKeepsValid(st, t);
    Step(Ok(t), st.(tickets := st.tickets[t.id := t], nextTicketId := st.nextTicketId + 1))
  }

  /** POST /workorders. Fails with NotFound, changing nothing, when the
      ticket does not exist. Otherwise adds one OPEN work order for it
      under the next work-order id and, in the same save, sets that
      ticket's status to ON_PROGRESS whatever it was before. */
  function CreateWorkOrder(
    st: Store, ticketId: int, details: string, assignedTo: string, isInternal: bool, now: Timestamp
  ): (s: Step<WorkOrder>)
    ensures s.response.NotFound? <==> ticketId !in st.tickets
    ensures ticketId !in st.tickets ==> s.store == st
    ensures ticketId in st.tickets ==>
      && s.response.Ok?
      && var w := s.response.value;
      && w.ticketId == ticketId && w.details == details && w.assignedTo == assignedTo
      && w.internal == isInternal && w.createdAt == now
      && w.status == Open && !w.notificationSent
      && s.store.workOrders.Keys == st.workOrders.Keys + {w.id}
      && w.id in s.store.workOrders && s.store.workOrders[w.id] == w
      && s.store.tickets.Keys == st.tickets.Keys
      && s.store.tickets[ticketId].status == OnProgress
      && SameTicketButStatus(st.tickets[ticketId], s.store.tickets[ticketId])
      && (forall k :: k in st.tickets && k != ticketId ==> s.store.tickets[k] == st.tickets[k])
      && (forall k :: k in st.workOrders && k != w.id ==> s.store.workOrders[k] == st.workOrders[k])
      && s.store.users == st.users && s.store.nextTicketId == st.nextTicketId
    ensures Valid(st) && ticketId in st.tickets ==>
      && s.response.value.id !in st.workOrders
      && (forall k :: k in st.workOrders ==> s.store.workOrders[k] == st.workOrders[k])
    ensures Valid(st) ==> Valid(s.store)
  {
    if ticketId !in st.tickets then Step(NotFound, st)
    else
      var w := WorkOrder(st.nextWorkOrderId, ticketId, assignedTo, details, Open, now, isInternal, false);
      var t := st.tickets[ticketId].(status := OnProgress);
      Step(Ok(w), st.(
        tickets := st.tickets[ticketId := t],
        workOrders := st.workOrders[w.id := w],
        nextWorkOrderId := st.nextWorkOrderId + 1))
  }

  // ---------------------------------------------------------- transitions

  /** POST /workorders/sendnotification. Marks the work order as notified;
      its status is left alone. */
  function SendNotification(st: Store, workOrderId: int): (s: Step<WorkOrder>)
    ensures s.response.NotFound? <==> workOrderId !in st.workOrders
    ensures workOrderId !in st.workOrders ==> s.store == st
    ensures workOrderId in st.workOrders ==>
      && OnlyWorkOrderChanged(st, s.store, workOrderId)
      && s.response == Ok(s.store.workOrders[workOrderId])
      && s.store.workOrders[workOrderId].notificationSent
      && s.store.workOrders[workOrderId].status == st.workOrders[workOrderId].status
      && s.store.workOrders[workOrderId] == st.workOrders[workOrderId].(notificationSent := true)
    ensures Valid(st) ==> Valid(s.store)
  {
    if workOrderId !in st.workOrders then Step(NotFound, st)
    else
      var w := st.workOrders[workOrderId].(notificationSent := true);
      Step(Ok(w), st.(workOrders := st.workOrders[workOrderId := w]))
  }

  /** Sets the status of an existing work order, whatever it was. */
  function SetWorkOrderStatus(st: Store, workOrderId: int, status: Status): (s: Step<WorkOrder>)
    ensures s.response.NotFound? <==> workOrderId !in st.workOrders
    ensures workOrderId !in st.workOrders ==> s.store == st
    ensures workOrderId in st.workOrders ==>
      && OnlyWorkOrderChanged(st, s.store, workOrderId)
      && s.response == Ok(s.store.workOrders[workOrderId])
      && s.store.workOrders[workOrderId].status == status
      && SameWorkOrderButStatus(st.workOrders[workOrderId], s.store.workOrders[workOrderId])
    ensures Valid(st) ==> Valid(s.store)
  {
    if workOrderId !in st.workOrders then Step(NotFound, st)
    else
      var w := st.workOrders[workOrderId].(status := status);
      Step(Ok(w), st.(workOrders := st.workOrders[workOrderId := w]))
  }

  /** POST /workorders/accept: the work order goes to ON_PROGRESS from any
      status, DONE included. */
  function AcceptWorkOrder(st: Store, workOrderId: int): (s: Step<WorkOrder>)
    ensures s.response.NotFound? <==> workOrderId !in st.workOrders
    ensures workOrderId !in st.workOrders ==> s.store == st
    ensures workOrderId in st.workOrders ==>
      && OnlyWorkOrderChanged(st, s.store, workOrderId)
      && s.response == Ok(s.store.workOrders[workOrderId])
      && s.store.workOrders[workOrderId].status == OnProgress
      && SameWorkOrderButStatus(st.workOrders[workOrderId], s.store.workOrders[workOrderId])
  {
    SetWorkOrderStatus(st, workOrderId, OnProgress)
  }

  /** POST /workorders/done: the work order goes to DONE from any status. */
  function CompleteWorkOrder(st: Store, workOrderId: int): (s: Step<WorkOrder>)
    ensures s.response.NotFound? <==> workOrderId !in st.workOrders
    ensures workOrderId !in st.workOrders ==> s.store == st
    ensures workOrderId in st.workOrders ==>
      && OnlyWorkOrderChanged(st, s.store, workOrderId)
      && s.response == Ok(s.store.workOrders[workOrderId])
      && s.store.workOrders[workOrderId].status == Done
      && SameWorkOrderButStatus(st.workOrders[workOrderId], s.store.workOrders[workOrderId])
  {
    SetWorkOrderStatus(st, workOrderId, Done)
  }

  /** POST /tickets/done: the ticket goes to DONE from any status; its work
      orders are not looked at. */
  function CompleteTicket(st: Store, ticketId: int): (s: Step<Ticket>)
    ensures s.response.NotFound? <==> ticketId !in st.tickets
    ensures ticketId !in st.tickets ==> s.store == st
    ensures ticketId in st.tickets ==>
      && OnlyTicketChanged(st, s.store, ticketId)
      && s.response == Ok(s.store.tickets[ticketId])
      && s.store.tickets[ticketId].status == Done
      && SameTicketButStatus(st.tickets[ticketId], s.store.tickets[ticketId])
    ensures Valid(st) ==> Valid(s.store)
  {
    if ticketId !in st.tickets then Step(NotFound, st)
    else
      var t := st.tickets[ticketId].(status := Done);
      Step(Ok(t), st.(tickets := st.tickets[ticketId := t]))
  }

  // ---------------------------------------------------------------- lists

  /** GET /tickets: every ticket once; the store is not changed. */
  function ListTickets(st: Store): (s: Step<seq<Ticket>>)
    ensures s.store == st && s.response.Ok?
    ensures |s.response.value| == |st.tickets|
    ensures forall id :: id in st.tickets ==> st.tickets[id] in s.response.value
    ensures forall i :: 0 <= i < |s.response.value| ==> s.response.value[i] in st.tickets.Values
  {
    Step(Ok(Tables.Rows(st.tickets)), st)
  }

  /** On a valid store the tickets are listed in ascending id order, each
      the row stored under its id. */
  lemma ListTicketsAscending(st: Store)
    requires Valid(st)
    ensures var r := ListTickets(st).response.value;
      forall i, j :: 0 <= i < j < |r| ==> r[i].id < r[j].id
  {
    var ks := Tables.Sorted(st.tickets.Keys);
    var r := Tables.Rows(st.tickets);
    assert ListTickets(st).response.value == r;
    assert |ks| == |r|;
    forall i, j | 0 <= i < j < |r|
      ensures r[i].id < r[j].id
    {
      assert r[i] == st.tickets[ks[i]] && r[j] == st.tickets[ks[j]];
      assert ks[i] < ks[j];
    }
  }

  /** GET /workorders: every work order once; the store is not changed. */
  function ListWorkOrders(st: Store): (s: Step<seq<WorkOrder>>)
    ensures s.store == st && s.response.Ok?
    ensures |s.response.value| == |st.workOrders|
    ensures forall id :: id in st.workOrders ==> st.workOrders[id] in s.response.value
    ensures forall i :: 0 <= i < |s.response.value| ==> s.response.value[i] in st.workOrders.Values
  {
    Step(Ok(Tables.Rows(st.workOrders)), st)
  }

  /** On a valid store the work orders are listed in ascending id order. */
  lemma ListWorkOrdersAscending(st: Store)
    requires Valid(st)
    ensures var r := ListWorkOrders(st).response.value;
      forall i, j :: 0 <= i < j < |r| ==> r[i].id < r[j].id
  {
    var ks := Tables.Sorted(st.workOrders.Keys);
    var r := Tables.Rows(st.workOrders);
    assert ListWorkOrders(st).response.value == r;
    assert |ks| == |r|;
    forall i, j | 0 <= i < j < |r|
      ensures r[i].id < r[j].id
    {
      assert r[i] == st.workOrders[ks[i]] && r[j] == st.workOrders[ks[j]];
      assert ks[i] < ks[j];
    }
  }
}
