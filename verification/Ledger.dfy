/** Agent submissions: one record per actor and idempotency key, at most one delivery attempt each. */
module Ledger {
  import opened Base
  import opened Text

  datatype State = Submitted | Completed | Failed | Cancelled

  datatype Status = Status(id: string, state: State, error: Option<string>)

  datatype Record = Record(status: Status, actor: string, key: string)

  /** `nextId` is a 64-bit counter. */
  datatype Book = Book(nextId: nat, transfers: map<string, Record>)

  datatype AutomationError = NotAuthorized(why: string) | TransferNotFound

  const EMPTY: Book := Book(0, map[])

  function LocalId(n: nat): string { "local-" + Decimal(n) }

  lemma LocalIdInjective(m: nat, n: nat)
    requires LocalId(m) == LocalId(n)
    ensures m == n
  {
    assert LocalId(m)[6..] == Decimal(m) && LocalId(n)[6..] == Decimal(n);
    DecimalInjective(m, n);
  }

  predicate Matches(r: Record, actor: string, key: string) { r.actor == actor && r.key == key }

  predicate Known(b: Book, actor: string, key: string) {
    exists id :: id in b.transfers && Matches(b.transfers[id], actor, key)
  }

  /** The record of an actor's key. */
  ghost function Find(b: Book, actor: string, key: string): (id: string)
    requires Known(b, actor, key)
    ensures id in b.transfers && Matches(b.transfers[id], actor, key)
  {
    var id :| id in b.transfers && Matches(b.transfers[id], actor, key);
    id
  }

  /** `refusal` is what authorisation says, if it refuses. */
  ghost function SubmitStep(b: Book, refusal: Option<AutomationError>, actor: string, key: string)
    : (Book, Result<Status, AutomationError>)
  {
    if refusal.Some? then (b, Err(refusal.value))
    else if Known(b, actor, key) then (b, Ok(b.transfers[Find(b, actor, key)].status))
    else
      var n := (b.nextId + 1) % U64_LIMIT;
      var status := Status(LocalId(n), Submitted, None);
      (Book(n, b.transfers[status.id := Record(status, actor, key)]), Ok(status))
  }

  function UpdateStep(b: Book, actor: string, id: string, state: State, error: Option<string>)
    : (Book, Result<Status, AutomationError>)
  {
    if id !in b.transfers || b.transfers[id].actor != actor then (b, Err(TransferNotFound))
    else
      var r := b.transfers[id];
      if r.status.state.Submitted? then
        var status := r.status.(state := state, error := error);
        (b.(transfers := b.transfers[id := r.(status := status)]), Ok(status))
      else (b, Ok(r.status))
  }

  function CancelStep(b: Book, actor: string, id: string): (Book, Result<Status, AutomationError>) {
    if id !in b.transfers || b.transfers[id].actor != actor then (b, Err(TransferNotFound))
    else
      var r := b.transfers[id];
      if r.status.state.Submitted? then
        var status := r.status.(state := Cancelled);
        (b.(transfers := b.transfers[id := r.(status := status)]), Ok(status))
      else (b, Ok(r.status))
  }

  /** What a socket delivery would answer, should it be attempted. */
  type Delivery = Result<(), string>

  datatype Call =
    | Submit(actor: string, key: string, refusal: Option<AutomationError>)
    | Send(actor: string, key: string, refusal: Option<AutomationError>, delivery: Delivery)
    | GetStatus(actor: string, id: string)
    | CancelCall(actor: string, id: string)

  datatype Handled = Handled(book: Book, result: Result<Status, AutomationError>, attempted: bool)

  /** One request of the agent API. Only `Send` may attempt a delivery, and only for a record still
      submitted. */
  ghost function Handle(b: Book, c: Call): Handled {
    match c
    case Submit(actor, key, refusal) =>
      var (b1, r) := SubmitStep(b, refusal, actor, key);
      Handled(b1, r, false)
    case Send(actor, key, refusal, delivery) =>
      var (b1, r) := SubmitStep(b, refusal, actor, key);
      if r.Err? || !r.value.state.Submitted? then Handled(b1, r, false)
      else
        (match delivery
         case Ok(_) =>
           var (b2, r2) := UpdateStep(b1, actor, r.value.id, Completed, None);
           Handled(b2, r2, true)
         case Err(e) =>
           var (b2, r2) := UpdateStep(b1, actor, r.value.id, Failed, Some(e));
           Handled(b2, r2, true))
    case GetStatus(actor, id) =>
      if id in b.transfers && b.transfers[id].actor == actor
      then Handled(b, Ok(b.transfers[id].status), false)
      else Handled(b, Err(TransferNotFound), false)
    case CancelCall(actor, id) =>
      var (b1, r) := CancelStep(b, actor, id);
      Handled(b1, r, false)
  }

  ghost function After(cs: seq<Call>): Book {
    if cs == [] then EMPTY else Handle(After(cs[..|cs| - 1]), cs[|cs| - 1]).book
  }

  /** Identifiers come from the counter, and an actor's key has one record. */
  ghost predicate Orderly(b: Book) {
    && (forall id :: id in b.transfers ==>
          b.transfers[id].status.id == id && exists n :: 0 < n <= b.nextId && id == LocalId(n))
    && (forall x, y | x in b.transfers && y in b.transfers
                      && Matches(b.transfers[x], b.transfers[y].actor, b.transfers[y].key) :: x == y)
  }

  /** Records stay, keep their owner and key, never leave a terminal state, and change only at their
      owner's request. */
  ghost predicate Grows(b: Book, b': Book, actor: string) {
    forall id :: id in b.transfers ==>
      && id in b'.transfers
      && b'.transfers[id].actor == b.transfers[id].actor && b'.transfers[id].key == b.transfers[id].key
      && (!b.transfers[id].status.state.Submitted? || b.transfers[id].actor != actor ==>
            b'.transfers[id] == b.transfers[id])
  }

  lemma FreshId(b: Book)
    requires Orderly(b) && b.nextId + 1 < U64_LIMIT
    ensures LocalId(b.nextId + 1) !in b.transfers
  {
    var id := LocalId(b.nextId + 1);
    if id in b.transfers {
      var n :| 0 < n <= b.nextId && id == LocalId(n);
      LocalIdInjective(n, b.nextId + 1);
    }
  }

  lemma SubmitKeeps(b: Book, refusal: Option<AutomationError>, actor: string, key: string)
    requires Orderly(b) && b.nextId + 1 < U64_LIMIT
    ensures var (b', r) := SubmitStep(b, refusal, actor, key);
            && Orderly(b') && Grows(b, b', actor) && b.nextId <= b'.nextId <= b.nextId + 1
            && (r.Ok? ==>
                  && r.value.id in b'.transfers && Matches(b'.transfers[r.value.id], actor, key)
                  && b'.transfers[r.value.id].status == r.value)
            && (forall id :: id in b.transfers ==> id in b'.transfers && b'.transfers[id] == b.transfers[id])
            && (forall id :: id in b'.transfers && id !in b.transfers ==> b'.transfers[id].status.state.Submitted?)
  {
    hide LocalId;
    FreshId(b);
    if refusal.None? && !Known(b, actor, key) {
      var b' := SubmitStep(b, refusal, actor, key).0;
      var newId := LocalId(b.nextId + 1);
      forall id | id in b'.transfers ensures exists n :: 0 < n <= b'.nextId && id == LocalId(n) {
        if id != newId {
          var n :| 0 < n <= b.nextId && id == LocalId(n);
        }
      }
    }
  }

  lemma UpdateKeeps(b: Book, actor: string, id: string, state: State, error: Option<string>)
    requires Orderly(b)
    ensures Orderly(UpdateStep(b, actor, id, state, error).0)
    ensures Grows(b, UpdateStep(b, actor, id, state, error).0, actor)
    ensures UpdateStep(b, actor, id, state, error).0.nextId == b.nextId
  {
    hide LocalId;
  }

  lemma CancelKeeps(b: Book, actor: string, id: string)
    requires Orderly(b)
    ensures Orderly(CancelStep(b, actor, id).0) && Grows(b, CancelStep(b, actor, id).0, actor)
  {
    hide LocalId;
  }

  /** Every handled call keeps the book orderly and only grows it. */
  lemma HandleKeeps(b: Book, c: Call)
    requires Orderly(b) && b.nextId + 1 < U64_LIMIT
    ensures var h := Handle(b, c);
            Orderly(h.book) && Grows(b, h.book, c.actor) && b.nextId <= h.book.nextId <= b.nextId + 1
  {
    hide Orderly, SubmitStep;
    match c
    case Submit(actor, key, refusal) => SubmitKeeps(b, refusal, actor, key);
    case Send(actor, key, refusal, delivery) =>
      SubmitKeeps(b, refusal, actor, key);
      var (b1, r) := SubmitStep(b, refusal, actor, key);
      if r.Ok? {
        UpdateKeeps(b1, actor, r.value.id, Completed, None);
        if delivery.Err? {
          UpdateKeeps(b1, actor, r.value.id, Failed, Some(delivery.error));
        }
      }
    case GetStatus(_, _) =>
    case CancelCall(actor, id) => CancelKeeps(b, actor, id);
  }

  /** An attempt happens only for a record not yet settled, and settles it by the delivery's answer. */
  lemma AttemptSettles(b: Book, c: Call)
    requires Orderly(b) && b.nextId + 1 < U64_LIMIT && Handle(b, c).attempted
    ensures c.Send? && Known(Handle(b, c).book, c.actor, c.key)
    ensures var b' := Handle(b, c).book;
            forall id :: id in b'.transfers && Matches(b'.transfers[id], c.actor, c.key) ==>
              && b'.transfers[id].status.state == (if c.delivery.Ok? then Completed else Failed)
              && (id in b.transfers ==> b.transfers[id].status.state.Submitted?)
  {
    hide LocalId, SubmitStep;
    HandleKeeps(b, c);
    SubmitKeeps(b, c.refusal, c.actor, c.key);
    var (b1, r) := SubmitStep(b, c.refusal, c.actor, c.key);
    var b' := Handle(b, c).book;
    var id := r.value.id;
    assert id in b'.transfers && Matches(b'.transfers[id], c.actor, c.key);
    assert id in b.transfers ==> b1.transfers[id] == b.transfers[id];
  }

  /** No attempt, no completion: a record turns Completed only in a call whose delivery answered Ok. */
  lemma OnlyDeliveryCompletes(b: Book, c: Call, id: string)
    requires Orderly(b) && b.nextId + 1 < U64_LIMIT
    requires id in Handle(b, c).book.transfers && Handle(b, c).book.transfers[id].status.state.Completed?
    requires id !in b.transfers || !b.transfers[id].status.state.Completed?
    ensures Handle(b, c).attempted && c.Send? && c.delivery.Ok?
    ensures Matches(Handle(b, c).book.transfers[id], c.actor, c.key)
  {
    hide LocalId, SubmitStep, Orderly;
    match c
    case Submit(actor, key, refusal) => SubmitKeeps(b, refusal, actor, key);
    case Send(actor, key, refusal, delivery) =>
      SubmitKeeps(b, refusal, actor, key);
      var (b1, r) := SubmitStep(b, refusal, actor, key);
      assert id in b1.transfers && !b1.transfers[id].status.state.Completed?;
      assert id == r.value.id && Matches(b1.transfers[id], actor, key);
    case GetStatus(_, _) =>
    case CancelCall(_, _) =>
  }

  // ---------- exactly what each call does ----------

  /** A refusal by authorisation is the whole answer: nothing is recorded and nothing attempted. */
  lemma RefusedDoesNothing(b: Book, c: Call)
    requires (c.Submit? || c.Send?) && c.refusal.Some?
    ensures Handle(b, c) == Handled(b, Err(c.refusal.value), false)
  {
  }

  /** The record an allowed submission is about: the actor's record for the key if there is one, or else
      a new one, submitted, under the next identifier. */
  ghost predicate Files(b: Book, actor: string, key: string, b': Book, id: string) {
    if exists x :: x in b.transfers && b.transfers[x].actor == actor && b.transfers[x].key == key then
      b' == b && id in b.transfers && b.transfers[id].actor == actor && b.transfers[id].key == key
    else
      && id == "local-" + Decimal((b.nextId + 1) % 0x1_0000_0000_0000_0000)
      && b' == Book((b.nextId + 1) % 0x1_0000_0000_0000_0000,
                    b.transfers[id := Record(Status(id, Submitted, None), actor, key)])
  }

  lemma SubmitFiles(b: Book, actor: string, key: string) returns (id: string)
    ensures var (b', r) := SubmitStep(b, None, actor, key);
            Files(b, actor, key, b', id) && id in b'.transfers && r == Ok(b'.transfers[id].status)
  {
    hide Decimal;
    var n := (b.nextId + 1) % U64_LIMIT;
    if exists x :: x in b.transfers && b.transfers[x].actor == actor && b.transfers[x].key == key {
      var x :| x in b.transfers && b.transfers[x].actor == actor && b.transfers[x].key == key;
      assert Matches(b.transfers[x], actor, key);
      id := Find(b, actor, key);
    } else {
      id := LocalId(n);
    }
  }

  /** An allowed submission files its record and answers its status. */
  lemma SubmitExactly(b: Book, actor: string, key: string) returns (id: string)
    ensures var h := Handle(b, Submit(actor, key, None));
            && Files(b, actor, key, h.book, id) && id in h.book.transfers
            && h.result == Ok(h.book.transfers[id].status) && !h.attempted
  {
    hide Files;
    id := SubmitFiles(b, actor, key);
  }

  /** An allowed sending files its record; if that is still submitted, one delivery is attempted and its
      answer recorded, an error with its text; otherwise the record's status is the answer. */
  lemma SendExactly(b: Book, actor: string, key: string, delivery: Delivery) returns (b1: Book, id: string)
    requires Orderly(b)
    ensures Files(b, actor, key, b1, id) && id in b1.transfers
    ensures var h, record := Handle(b, Send(actor, key, None, delivery)), b1.transfers[id];
            && h.attempted == record.status.state.Submitted?
            && (if h.attempted then
                  var settled := match delivery
                                 case Ok(_) => Status(id, Completed, None)
                                 case Err(e) => Status(id, Failed, Some(e));
                  h.result == Ok(settled) && h.book == b1.(transfers := b1.transfers[id := Record(settled, actor, key)])
                else h.result == Ok(record.status) && h.book == b1)
  {
    hide LocalId, Decimal;
    id := SubmitFiles(b, actor, key);
    b1 := SubmitStep(b, None, actor, key).0;
    assert b1.transfers[id].status.id == id && b1.transfers[id].actor == actor && b1.transfers[id].key == key;
  }

  /** Only the owner's record is found; cancelling it cancels it if it is still submitted, keeping what
      was recorded of an error, and asking for it changes nothing. */
  lemma CancelExactly(b: Book, actor: string, id: string)
    ensures var h := Handle(b, CancelCall(actor, id));
            && !h.attempted
            && (if id !in b.transfers || b.transfers[id].actor != actor then h.result == Err(TransferNotFound)
                && h.book == b
                else
                  var record := b.transfers[id];
                  var status := if record.status.state.Submitted?
                                then Status(record.status.id, Cancelled, record.status.error)
                                else record.status;
                  && h.result == Ok(status)
                  && h.book == b.(transfers := b.transfers[id := Record(status, record.actor, record.key)]))
    ensures Handle(b, GetStatus(actor, id))
         == Handled(b,
                    if id in b.transfers && b.transfers[id].actor == actor then Ok(b.transfers[id].status)
                    else Err(TransferNotFound),
                    false)
  {
    if id in b.transfers {
      assert b.transfers[id := b.transfers[id]] == b.transfers;
    }
  }

  // ---------- any sequence of calls ----------

  lemma {:induction false} HistoryIsOrderly(cs: seq<Call>)
    requires |cs| < U64_LIMIT
    ensures Orderly(After(cs)) && After(cs).nextId <= |cs|
  {
    hide Handle, Orderly;
    if cs == [] {
      assert Orderly(EMPTY) by { EmptyIsOrderly(); }
    } else {
      HistoryIsOrderly(cs[..|cs| - 1]);
      HandleKeeps(After(cs[..|cs| - 1]), cs[|cs| - 1]);
    }
  }

  lemma EmptyIsOrderly()
    ensures Orderly(EMPTY)
  {
  }

  /** A terminal record is the same ever after. */
  lemma {:induction false} TerminalIsForever(cs: seq<Call>, k: nat, id: string)
    requires |cs| < U64_LIMIT && k <= |cs|
    requires id in After(cs[..k]).transfers && !After(cs[..k]).transfers[id].status.state.Submitted?
    ensures id in After(cs).transfers && After(cs).transfers[id] == After(cs[..k]).transfers[id]
    decreases |cs|
  {
    hide Handle, Orderly;
    if k == |cs| {
      assert cs[..k] == cs;
    } else {
      var shorter := cs[..|cs| - 1];
      assert shorter[..k] == cs[..k];
      TerminalIsForever(shorter, k, id);
      HistoryIsOrderly(shorter);
      HandleKeeps(After(shorter), cs[|cs| - 1]);
    }
  }

  /** Over any history, an actor's key is attempted at most once. */
  lemma AtMostOneAttempt(cs: seq<Call>, i: nat, j: nat)
    requires i < j < |cs| < U64_LIMIT
    requires cs[i].Send? && cs[j].Send? && cs[i].actor == cs[j].actor && cs[i].key == cs[j].key
    requires Handle(After(cs[..i]), cs[i]).attempted
    ensures !Handle(After(cs[..j]), cs[j]).attempted
  {
    hide Handle, LocalId;
    var upto := cs[..j];
    assert upto[..i + 1] == cs[..i + 1] && cs[..i + 1][..i] == cs[..i];
    HistoryIsOrderly(cs[..i]);
    HistoryIsOrderly(cs[..i + 1]);
    HistoryIsOrderly(upto);
    AttemptSettles(After(cs[..i]), cs[i]);
    var id := Find(After(cs[..i + 1]), cs[i].actor, cs[i].key);
    TerminalIsForever(upto, i + 1, id);
    if Handle(After(upto), cs[j]).attempted {
      AttemptSettles(After(upto), cs[j]);
      HandleKeeps(After(upto), cs[j]);
    }
  }

  /** A completed record was completed by an attempt for its own actor and key that answered Ok. */
  lemma {:induction false} CompletedWasDelivered(cs: seq<Call>, id: string) returns (k: nat)
    requires |cs| < U64_LIMIT && id in After(cs).transfers && After(cs).transfers[id].status.state.Completed?
    ensures k < |cs| && cs[k].Send? && cs[k].delivery.Ok? && Handle(After(cs[..k]), cs[k]).attempted
    ensures Matches(After(cs).transfers[id], cs[k].actor, cs[k].key)
    decreases |cs|
  {
    hide Handle, Orderly;
    var last := |cs| - 1;
    var shorter := cs[..last];
    HistoryIsOrderly(shorter);
    HandleKeeps(After(shorter), cs[last]);
    if id in After(shorter).transfers && After(shorter).transfers[id].status.state.Completed? {
      k := CompletedWasDelivered(shorter, id);
      assert shorter[..k] == cs[..k];
    } else {
      OnlyDeliveryCompletes(After(shorter), cs[last], id);
      k := last;
    }
  }

  /** Every record comes from a call of its own actor and key that authorisation allowed. */
  lemma {:induction false} RecordsWereAllowed(cs: seq<Call>, id: string) returns (k: nat)
    requires |cs| < U64_LIMIT && id in After(cs).transfers
    ensures k < |cs| && (cs[k].Submit? || cs[k].Send?) && cs[k].refusal.None?
    ensures Matches(After(cs).transfers[id], cs[k].actor, cs[k].key)
    decreases |cs|
  {
    hide Handle, Orderly;
    var last := |cs| - 1;
    var shorter := cs[..last];
    HistoryIsOrderly(shorter);
    HandleKeeps(After(shorter), cs[last]);
    if id in After(shorter).transfers {
      k := RecordsWereAllowed(shorter, id);
    } else {
      NewRecordWasAllowed(After(shorter), cs[last], id);
      k := last;
    }
  }

  lemma NewRecordWasAllowed(b: Book, c: Call, id: string)
    requires Orderly(b) && b.nextId + 1 < U64_LIMIT && id !in b.transfers && id in Handle(b, c).book.transfers
    ensures (c.Submit? || c.Send?) && c.refusal.None? && Matches(Handle(b, c).book.transfers[id], c.actor, c.key)
  {
    hide LocalId;
  }

  /** Every attempt comes from a call that authorisation allowed. */
  lemma AttemptsWereAllowed(cs: seq<Call>, k: nat)
    requires k < |cs| && Handle(After(cs[..k]), cs[k]).attempted
    ensures cs[k].Send? && cs[k].refusal.None?
  {
    hide After;
    var b := After(cs[..k]);
    if cs[k].Send? && cs[k].refusal.Some? {
      RefusedDoesNothing(b, cs[k]);
    }
  }

  // ---------- the ledger as an object ----------

  class AgentTransfers {
    var nextId: nat
    var transfers: map<string, Record>

    constructor ()
      ensures Contents() == EMPTY
    {
      nextId, transfers := 0, map[];
    }

    function Contents(): Book
      reads this
    {
      Book(nextId, transfers)
    }

    /** Looks through the records for the actor's key. */
    method Lookup(actor: string, key: string) returns (found: Option<string>)
      ensures found.None? <==> !Known(Contents(), actor, key)
      ensures found.Some? ==> found.value in transfers && Matches(transfers[found.value], actor, key)
    {
      var rest := transfers.Keys;
      while rest != {}
        invariant rest <= transfers.Keys
        invariant forall id :: id in transfers && id !in rest ==> !Matches(transfers[id], actor, key)
      {
        var id :| id in rest;
        if Matches(transfers[id], actor, key) {
          return Some(id);
        }
        rest := rest - {id};
      }
      return None;
    }

    method Submit(refusal: Option<AutomationError>, actor: string, key: string)
        returns (r: Result<Status, AutomationError>)
      requires Orderly(Contents())
      modifies this
      ensures (Contents(), r) == SubmitStep(old(Contents()), refusal, actor, key)
    {
      if refusal.Some? {
        return Err(refusal.value);
      }
      var found := Lookup(actor, key);
      if found.Some? {
        return Ok(transfers[found.value].status);
      }
      nextId := (nextId + 1) % U64_LIMIT;
      var status := Status(LocalId(nextId), Submitted, None);
      transfers := transfers[status.id := Record(status, actor, key)];
      return Ok(status);
    }

    method UpdateResult(actor: string, id: string, state: State, error: Option<string>)
        returns (r: Result<Status, AutomationError>)
      modifies this`transfers
      ensures (Contents(), r) == UpdateStep(old(Contents()), actor, id, state, error)
    {
      if id !in transfers || transfers[id].actor != actor {
        return Err(TransferNotFound);
      }
      var record := transfers[id];
      if record.status.state.Submitted? {
        record := record.(status := record.status.(state := state, error := error));
        transfers := transfers[id := record];
      }
      return Ok(record.status);
    }

    method Cancel(actor: string, id: string) returns (r: Result<Status, AutomationError>)
      modifies this`transfers
      ensures (Contents(), r) == CancelStep(old(Contents()), actor, id)
    {
      if id !in transfers || transfers[id].actor != actor {
        return Err(TransferNotFound);
      }
      var record := transfers[id];
      if record.status.state.Submitted? {
        record := record.(status := record.status.(state := Cancelled));
        transfers := transfers[id := record];
      }
      return Ok(record.status);
    }

    /** The transfers.send branch of the agent API. */
    method SendTransfer(refusal: Option<AutomationError>, actor: string, key: string, delivery: Delivery)
      returns (r: Result<Status, AutomationError>, attempted: bool)
      requires Orderly(Contents())
      modifies this
      ensures Handled(Contents(), r, attempted) == Handle(old(Contents()), Send(actor, key, refusal, delivery))
    {
      attempted := false;
      r := Submit(refusal, actor, key);
      if r.Err? || !r.value.state.Submitted? {
        return;
      }
      attempted := true;
      match delivery
      case Ok(_) => r := UpdateResult(actor, r.value.id, Completed, None);
      case Err(e) => r := UpdateResult(actor, r.value.id, Failed, Some(e));
    }
  }
}
