/**
 * The API as a whole: the route table with its authorization requirement,
 * runs of requests from the seeded store, and the properties that hold
 * across every handler and every run.
 */
module Lifecycle {
  import opened Wrappers
  import opened Data
  import opened Handlers

  /** One request to one route, with its parameters. */
  datatype Request =
    | PostLogin(username: string, password: string)
    | PostTicket(title: string, description: string)
    | PostWorkOrder(ticketId: int, details: string, assignedTo: string, isInternal: bool)
    | PostSendNotification(workOrderId: int)
    | PostAcceptWorkOrder(workOrderId: int)
    | PostDoneWorkOrder(workOrderId: int)
    | PostDoneTicket(ticketId: int)
    | GetTickets
    | GetWorkOrders

  /** The body of a successful response. */
  datatype Payload =
    | Issued(token: Token)
    | TicketBody(ticket: Ticket)
    | WorkOrderBody(workOrder: WorkOrder)
    | TicketList(tickets: seq<Ticket>)
    | WorkOrderList(workOrders: seq<WorkOrder>)

  /** A handler's step with its successful value put into a response body. */
  function Wrap<T>(s: Step<T>, body: T -> Payload): Step<Payload>
  {
    match s.response
    case Ok(v) => Step(Ok(body(v)), s.store)
    case NotFound => Step(NotFound, s.store)
    case Unauthorized => Step(Unauthorized, s.store)
    case ServerError => Step(ServerError, s.store)
  }

  /** The change any handler may make to a store: users stay; tickets and
      work orders are never removed; a ticket changes at most its status;
      a work order changes at most its status and notification flag, and
      that flag is never cleared. */
  predicate Evolves(st1: Store, st2: Store) {
    && st2.users == st1.users
    && st1.tickets.Keys <= st2.tickets.Keys
    && st1.workOrders.Keys <= st2.workOrders.Keys
    && (forall id :: id in st1.tickets ==> SameTicketButStatus(st1.tickets[id], st2.tickets[id]))
    && (forall id :: id in st1.workOrders ==>
          && st2.workOrders[id] == st1.workOrders[id].(
               status := st2.workOrders[id].status,
               notificationSent := st2.workOrders[id].notificationSent)
          && (st1.workOrders[id].notificationSent ==> st2.workOrders[id].notificationSent))
  }

  lemma EvolvesTransitive(st1: Store, st2: Store, st3: Store)
    requires Evolves(st1, st2) && Evolves(st2, st3)
    ensures Evolves(st1, st3)
  {
  }

  /** Routes a request to its handler. Every route but login requires an
      authorized caller (a valid bearer token); without one the request is
      refused before its handler runs. `now` is the clock reading the
      creation handlers stamp on new records. */
  function Dispatch(st: Store, req: Request, authorized: bool, now: Timestamp): (s: Step<Payload>)
    ensures !authorized && !req.PostLogin? ==> s == Step(Unauthorized, st)
    ensures req.PostLogin? || req.GetTickets? || req.GetWorkOrders? ==> s.store == st
    ensures Valid(st) ==> Valid(s.store)
  {
    if !authorized && !req.PostLogin? then Step(Unauthorized, st)
    else
      match req
      case PostLogin(u, p) =>
        Wrap(Step(Login(st, u, p), st), token => Issued(token))
      case PostTicket(title, description) =>
        Wrap(CreateTicket(st, title, description, now), t => TicketBody(t))
      case PostWorkOrder(ticketId, details, assignedTo, isInternal) =>
        Wrap(CreateWorkOrder(st, ticketId, details, assignedTo, isInternal, now), w => WorkOrderBody(w))
      case PostSendNotification(id) =>
        Wrap(SendNotification(st, id), w => WorkOrderBody(w))
      case PostAcceptWorkOrder(id) =>
        Wrap(AcceptWorkOrder(st, id), w => WorkOrderBody(w))
      case PostDoneWorkOrder(id) =>
        Wrap(CompleteWorkOrder(st, id), w => WorkOrderBody(w))
      case PostDoneTicket(id) =>
        Wrap(CompleteTicket(st, id), t => TicketBody(t))
      case GetTickets =>
        Wrap(ListTickets(st), ts => TicketList(ts))
      case GetWorkOrders =>
        Wrap(ListWorkOrders(st), ws => WorkOrderList(ws))
  }

  lemma CreateTicketEvolves(st: Store, title: string, description: string, now: Timestamp)
    requires Valid(st)
    ensures Evolves(st, CreateTicket(st, title, description, now).store)
  {
  }

  lemma CreateWorkOrderEvolves(
    st: Store, ticketId: int, details: string, assignedTo: string, isInternal: bool, now: Timestamp)
    requires Valid(st)
    ensures Evolves(st, CreateWorkOrder(st, ticketId, details, assignedTo, isInternal, now).store)
  {
  }

  lemma SendNotificationEvolves(st: Store, id: int)
    ensures Evolves(st, SendNotification(st, id).store)
  {
  }

  lemma SetWorkOrderStatusEvolves(st: Store, id: int, status: Status)
    ensures Evolves(st, SetWorkOrderStatus(st, id, status).store)
  {
  }

  lemma CompleteTicketEvolves(st: Store, id: int)
    ensures Evolves(st, CompleteTicket(st, id).store)
  {
  }

  /** No handler removes a record, edits a field other than a status or
      the notification flag, or clears that flag. */
  lemma DispatchEvolves(st: Store, req: Request, authorized: bool, now: Timestamp)
    requires Valid(st)
    ensures Evolves(st, Dispatch(st, req, authorized, now).store)
  {
    if authorized || req.PostLogin? {
      match req
      case PostTicket(title, description) => CreateTicketEvolves(st, title, description, now);
      case PostWorkOrder(ticketId, details, assignedTo, isInternal) =>
        CreateWorkOrderEvolves(st, ticketId, details, assignedTo, isInternal, now);
      case PostSendNotification(id) => SendNotificationEvolves(st, id);
      case PostAcceptWorkOrder(id) => SetWorkOrderStatusEvolves(st, id, OnProgress);
      case PostDoneWorkOrder(id) => SetWorkOrderStatusEvolves(st, id, Done);
      case PostDoneTicket(id) => CompleteTicketEvolves(st, id);
      case _ =>
    }
  }

  /** One request as it arrives: what is asked, whether the caller holds a
      valid token, and the clock reading at that moment. */
  datatype Call = Call(request: Request, authorized: bool, now: Timestamp)

  /** The store after serving `calls` one after another, starting from `st`. */
  function Run(st: Store, calls: seq<Call>): (r: Store)
    ensures Valid(st) ==> Valid(r) && Evolves(st, r)
    decreases |calls|
  {
    if |calls| == 0 then st
    else
      var c := calls[0];
      var next := Dispatch(st, c.request, c.authorized, c.now).store;
      var r := Run(next, calls[1..]);
      if Valid(st) then
        DispatchEvolves(st, c.request, c.authorized, c.now);
        EvolvesTransitive(st, next, r);
        r
      else r
  }

  /** Every store the system can reach from its first start is valid. */
  lemma ReachableStoresAreValid(calls: seq<Call>)
    ensures Valid(Run(Seed(), calls))
  {
  }

  // ------------------------------------------------ properties of handlers

  /** Sending a notification twice is the same as sending it once. */
  lemma SendNotificationIdempotent(st: Store, id: int)
    ensures var once := SendNotification(st, id);
      SendNotification(once.store, id) == once
  {
    var once := SendNotification(st, id);
    if id in st.workOrders {
      assert once.store.workOrders[id := once.store.workOrders[id]] == once.store.workOrders;
    }
  }

  /** With no transition guard, a work order's status is whatever the last
      transition set: accepting or completing first leaves no trace. */
  lemma LastStatusWins(st: Store, id: int, first: Status, last: Status)
    ensures SetWorkOrderStatus(SetWorkOrderStatus(st, id, first).store, id, last)
         == SetWorkOrderStatus(st, id, last)
  {
    if id in st.workOrders {
      var m := st.workOrders;
      var w := m[id];
      assert m[id := w.(status := first)][id := w.(status := first).(status := last)]
          == m[id := w.(status := last)];
    }
  }

  /** Ticket and work-order statuses are separate fields: completing a
      ticket and completing a work order commute, whichever ticket the
      work order belongs to. */
  lemma TicketAndWorkOrderStatusesIndependent(st: Store, ticketId: int, workOrderId: int)
    ensures CompleteTicket(CompleteWorkOrder(st, workOrderId).store, ticketId).store
         == CompleteWorkOrder(CompleteTicket(st, ticketId).store, workOrderId).store
  {
  }

  /** A created ticket shows up in the ticket list, which grows by one. */
  lemma CreatedTicketIsListed(st: Store, title: string, description: string, now: Timestamp)
    requires Valid(st)
    ensures var s := CreateTicket(st, title, description, now);
      && s.response.value in ListTickets(s.store).response.value
      && |ListTickets(s.store).response.value| == |ListTickets(st).response.value| + 1
  {
  }

  /** Creating a work order is all or nothing: either the new work order is
      listed and its ticket is listed as ON_PROGRESS, or the response is
      NotFound and both lists are as before. */
  lemma CreateWorkOrderAllOrNothing(
    st: Store, ticketId: int, details: string, assignedTo: string, isInternal: bool, now: Timestamp)
    requires Valid(st)
    ensures var s := CreateWorkOrder(st, ticketId, details, assignedTo, isInternal, now);
      if s.response.Ok? then
        && s.response.value in ListWorkOrders(s.store).response.value
        && |ListWorkOrders(s.store).response.value| == |ListWorkOrders(st).response.value| + 1
        && st.tickets[ticketId].(status := OnProgress) in ListTickets(s.store).response.value
      else
        && s.response.NotFound?
        && ListWorkOrders(s.store) == ListWorkOrders(st)
        && ListTickets(s.store) == ListTickets(st)
  {
    var s := CreateWorkOrder(st, ticketId, details, assignedTo, isInternal, now);
    if s.response.Ok? {
      assert s.store.tickets[ticketId] == st.tickets[ticketId].(status := OnProgress);
    }
  }

  // ------------------------------------------------ the seeded store

  /** On the first start exactly one login works: "admin" with "admin123". */
  lemma SeedLogin(username: string, password: string)
    ensures Login(Seed(), username, password).Ok?
        <==> username == AdminUsername && password == AdminPassword
    ensures Login(Seed(), AdminUsername, AdminPassword) == Ok(Token(AdminUsername))
  {
    var st := Seed();
    LoginSucceedsIffCredentials(st, username, password);
    LoginSucceedsIffCredentials(st, AdminUsername, AdminPassword);
    assert st.users[0] in st.users;
    if Credentials(st, username, password) {
      var u :| u in st.users && u.username == username && DecodePassword(u.password) == Some(password);
      assert u == st.users[0];
    }
  }

  /** A work order for a ticket that does not exist is refused and leaves
      the work-order list empty. */
  lemma MissingTicketScenario(now: Timestamp)
    ensures var s := CreateWorkOrder(Seed(), 999, "Inspect unit", "tech1", false, now);
      s.response == NotFound && ListWorkOrders(s.store).response == Ok([])
  {
  }

  /** A table of one row is listed as that row alone. */
  lemma SingleRowListed(st: Store, t: Ticket, w: WorkOrder)
    requires st.tickets == map[1 := t] && st.workOrders == map[1 := w]
    ensures ListTickets(st).response == Ok([t])
    ensures ListWorkOrders(st).response == Ok([w])
  {
    var tickets := ListTickets(st).response.value;
    var workOrders := ListWorkOrders(st).response.value;
    assert st.tickets[1] in tickets && |tickets| == 1;
    assert tickets == [tickets[0]] && tickets[0] == t;
    assert st.workOrders[1] in workOrders && |workOrders| == 1;
    assert workOrders == [workOrders[0]] && workOrders[0] == w;
  }

  /** The stores the ticket-life scenario passes through. */
  function ScenarioTicket(t0: Timestamp, status: Status): (r: Ticket) {
    Ticket(1, "Broken AC", "Unit 4B", status, t0)
  }

  function ScenarioOrder(t1: Timestamp, status: Status): (r: WorkOrder) {
    WorkOrder(1, 1, "tech1", "Inspect unit", status, t1, false, false)
  }

  lemma ScenarioOpenTicket(users: seq<User>, t0: Timestamp)
    ensures CreateTicket(Store(users, map[], map[], 1, 1), "Broken AC", "Unit 4B", t0)
         == Step(Ok(ScenarioTicket(t0, Open)), Store(users, map[1 := ScenarioTicket(t0, Open)], map[], 2, 1))
  {
  }

  lemma ScenarioAddWorkOrder(users: seq<User>, t0: Timestamp, t1: Timestamp)
    ensures var st := Store(users, map[1 := ScenarioTicket(t0, Open)], map[], 2, 1);
      CreateWorkOrder(st, 1, "Inspect unit", "tech1", false, t1)
      == Step(Ok(ScenarioOrder(t1, Open)),
              Store(users, map[1 := ScenarioTicket(t0, OnProgress)], map[1 := ScenarioOrder(t1, Open)], 2, 2))
  {
    assert map[1 := ScenarioTicket(t0, Open)][1 := ScenarioTicket(t0, OnProgress)] == map[1 := ScenarioTicket(t0, OnProgress)];
  }

  lemma ScenarioFinishWorkOrder(users: seq<User>, t0: Timestamp, t1: Timestamp)
    ensures var st := Store(users, map[1 := ScenarioTicket(t0, OnProgress)], map[1 := ScenarioOrder(t1, Open)], 2, 2);
      CompleteWorkOrder(st, 1)
      == Step(Ok(ScenarioOrder(t1, Done)),
              Store(users, map[1 := ScenarioTicket(t0, OnProgress)], map[1 := ScenarioOrder(t1, Done)], 2, 2))
  {
    assert map[1 := ScenarioOrder(t1, Open)][1 := ScenarioOrder(t1, Done)] == map[1 := ScenarioOrder(t1, Done)];
  }

  lemma ScenarioFinishTicket(users: seq<User>, t0: Timestamp, t1: Timestamp)
    ensures var st := Store(users, map[1 := ScenarioTicket(t0, OnProgress)], map[1 := ScenarioOrder(t1, Done)], 2, 2);
      CompleteTicket(st, 1)
      == Step(Ok(ScenarioTicket(t0, Done)),
              Store(users, map[1 := ScenarioTicket(t0, Done)], map[1 := ScenarioOrder(t1, Done)], 2, 2))
  {
    assert map[1 := ScenarioTicket(t0, OnProgress)][1 := ScenarioTicket(t0, Done)] == map[1 := ScenarioTicket(t0, Done)];
  }

  /** The ticket part of the life of one ticket, from empty tables over
      any user table. */
  lemma TicketLifeFrom(users: seq<User>, t0: Timestamp, t1: Timestamp)
    ensures var c1 := CreateTicket(Store(users, map[], map[], 1, 1), "Broken AC", "Unit 4B", t0);
      var c2 := CreateWorkOrder(c1.store, 1, "Inspect unit", "tech1", false, t1);
      var c3 := CompleteWorkOrder(c2.store, 1);
      var c4 := CompleteTicket(c3.store, 1);
      && c1.response == Ok(Ticket(1, "Broken AC", "Unit 4B", Open, t0))
      && c2.response == Ok(WorkOrder(1, 1, "tech1", "Inspect unit", Open, t1, false, false))
      && c2.store.tickets[1].status == OnProgress
      && c3.response.Ok? && c3.response.value.status == Done
      && c4.response.Ok? && c4.response.value.status == Done
      && ListTickets(c4.store).response == Ok([Ticket(1, "Broken AC", "Unit 4B", Done, t0)])
      && ListWorkOrders(c4.store).response == Ok([WorkOrder(1, 1, "tech1", "Inspect unit", Done, t1, false, false)])
  {
    ScenarioOpenTicket(users, t0);
    ScenarioAddWorkOrder(users, t0, t1);
    ScenarioFinishWorkOrder(users, t0, t1);
    ScenarioFinishTicket(users, t0, t1);
    var final := Store(users, map[1 := ScenarioTicket(t0, Done)], map[1 := ScenarioOrder(t1, Done)], 2, 2);
    SingleRowListed(final, ScenarioTicket(t0, Done), ScenarioOrder(t1, Done));
  }

  /** The life of one ticket from the first start: log in, open a ticket,
      give it a work order (which moves the ticket to ON_PROGRESS), finish
      the work order, finish the ticket, list both tables. */
  lemma TicketLifeScenario(t0: Timestamp, t1: Timestamp)
    ensures Login(Seed(), "admin", "admin123") == Ok(Token("admin"))
    ensures var c1 := CreateTicket(Seed(), "Broken AC", "Unit 4B", t0);
      var c2 := CreateWorkOrder(c1.store, 1, "Inspect unit", "tech1", false, t1);
      var c3 := CompleteWorkOrder(c2.store, 1);
      var c4 := CompleteTicket(c3.store, 1);
      && c1.response == Ok(Ticket(1, "Broken AC", "Unit 4B", Open, t0))
      && c2.response == Ok(WorkOrder(1, 1, "tech1", "Inspect unit", Open, t1, false, false))
      && c2.store.tickets[1].status == OnProgress
      && c3.response.Ok? && c3.response.value.status == Done
      && c4.response.Ok? && c4.response.value.status == Done
      && ListTickets(c4.store).response == Ok([Ticket(1, "Broken AC", "Unit 4B", Done, t0)])
      && ListWorkOrders(c4.store).response == Ok([WorkOrder(1, 1, "tech1", "Inspect unit", Done, t1, false, false)])
  {
    SeedLogin("admin", "admin123");
    var st := Seed();
    assert st == Store(st.users, map[], map[], 1, 1);
    TicketLifeFrom(st.users, t0, t1);
  }

  /** Nothing ties the two lifecycles together: a ticket can be DONE while
      its work order is still OPEN, and a new work order moves a DONE
      ticket back to ON_PROGRESS. */
  lemma NoCrossEntityGuards(t0: Timestamp, t1: Timestamp, t2: Timestamp)
    ensures var c1 := CreateTicket(Seed(), "Broken AC", "Unit 4B", t0);
      var c2 := CreateWorkOrder(c1.store, 1, "Inspect unit", "tech1", false, t1);
      var c3 := CompleteTicket(c2.store, 1);
      var c4 := CreateWorkOrder(c3.store, 1, "Replace part", "tech2", true, t2);
      && c3.store.tickets[1].status == Done && c3.store.workOrders[1].status == Open
      && c4.response.Ok? && c4.store.tickets[1].status == OnProgress
  {
  }
}
