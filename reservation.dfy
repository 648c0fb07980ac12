/** The reservation store of the concurrent book-reservation library.

    Every change to a book record happens inside one critical section protected by the
    library's mutex. Each critical section is modelled as one atomic transition on the
    store (`Reserve`, `Borrow`, `AutoCancel`, `Add`); the goroutines that run them (request
    handlers, the auto-cancel timer, the asynchronous borrow attempt) are modelled as an
    arbitrary order of those transitions (`Step`, `Run`). The class `InMemoryLibrary`
    holds the store, the `workerOn` flag and whether the worker's quit channel has been
    closed; each of its methods performs at most one transition. */
module Reservation {
  import opened Wrappers

  /** A book record: `available`, `reservedBy` and `borrowedBy` are the fields the
      library mutates; member id 0 means "nobody". */
  datatype Book = Book(id: int, title: string, author: string,
                       available: bool, reservedBy: int, borrowedBy: int)

  /** The errors the library reports. `AlreadyReservedBy` and `AlreadyBorrowedBy` are the
      reservation handler's messages (they name the holder); `AlreadyBorrowed` is the one
      from `ProcessBorrow`. */
  datatype Error =
    | BookNotFound
    | AlreadyReservedBy(bookID: int, member: int)
    | AlreadyBorrowedBy(bookID: int, member: int)
    | NotReservedByMember
    | AlreadyBorrowed
    | WorkerNotStarted
    | QueueTimeout

  /** The store: book id to book record. */
  type Store = map<int, Book>

  /** The new store after one critical section, and the error it returned (`None` for nil). */
  datatype Outcome = Outcome(store: Store, err: Option<Error>)

  /** The state of a single book is one of Available, Reserved or Borrowed: never reserved
      and borrowed at once, and `available` exactly when nobody holds it. */
  predicate ConsistentBook(b: Book)
  {
    && !(b.reservedBy != 0 && b.borrowedBy != 0)
    && (b.available <==> b.reservedBy == 0 && b.borrowedBy == 0)
  }

  /** The store invariant: every book is consistent and stored under its own id. */
  predicate Consistent(s: Store)
  {
    forall id :: id in s ==> s[id].id == id && ConsistentBook(s[id])
  }

  // ---------------------------------------------------------------------------------
  // The critical sections as transitions
  // ---------------------------------------------------------------------------------

  /** `AddBook`: store the record under its id, replacing any previous one. */
  function Add(s: Store, b: Book): (t: Store)
    ensures t.Keys == s.Keys + {b.id} && t[b.id] == b
    ensures forall id :: id in s && id != b.id ==> t[id] == s[id]
  {
    s[b.id := b]
  }

  /** The check-and-set at the start of the reservation handler. */
  function Reserve(s: Store, bookID: int, memberID: int): (o: Outcome)
    ensures o.store.Keys == s.Keys
    ensures o.err != None ==> o.store == s
  {
    if bookID !in s then Outcome(s, Some(BookNotFound))
    else
      var b := s[bookID];
      if b.reservedBy != 0 then Outcome(s, Some(AlreadyReservedBy(bookID, b.reservedBy)))
      else if b.borrowedBy != 0 then Outcome(s, Some(AlreadyBorrowedBy(bookID, b.borrowedBy)))
      else Outcome(s[bookID := b.(reservedBy := memberID, available := false)], None)
  }

  /** `ProcessBorrow`: the compare-and-set that turns a member's reservation into a borrow. */
  function Borrow(s: Store, bookID: int, memberID: int): (o: Outcome)
    ensures o.store.Keys == s.Keys
    ensures o.err != None ==> o.store == s
  {
    if bookID !in s then Outcome(s, Some(BookNotFound))
    else
      var b := s[bookID];
      if b.reservedBy != memberID then Outcome(s, Some(NotReservedByMember))
      else if b.borrowedBy != 0 then Outcome(s, Some(AlreadyBorrowed))
      else Outcome(s[bookID := b.(borrowedBy := memberID, reservedBy := 0, available := false)], None)
  }

  /** The body of the auto-cancel timer when it fires: release the reservation only if it
      is still this member's and the book has not been borrowed; otherwise do nothing. */
  function AutoCancel(s: Store, bookID: int, memberID: int): (t: Store)
    ensures t.Keys == s.Keys
  {
    if bookID !in s then s
    else
      var b := s[bookID];
      if b.reservedBy == memberID && b.borrowedBy == 0
      then s[bookID := b.(reservedBy := 0, available := true)]
      else s
  }

  // ---------------------------------------------------------------------------------
  // What each transition does
  // ---------------------------------------------------------------------------------

  /** `b` describes the same book as `a`: id, title and author agree. */
  predicate SameRecord(a: Book, b: Book)
  {
    a.id == b.id && a.title == b.title && a.author == b.author
  }

  /** Reserving an unknown id reports "book not found" and changes nothing. */
  lemma ReserveMissing(s: Store, bookID: int, memberID: int)
    requires bookID !in s
    ensures Reserve(s, bookID, memberID) == Outcome(s, Some(BookNotFound))
  {
  }

  /** A reservation succeeds exactly when the book exists and nobody holds it; it then
      records the member, marks the book unavailable and leaves everything else alone;
      a refused reservation leaves the store unchanged. */
  lemma ReserveContract(s: Store, bookID: int, memberID: int)
    ensures var o := Reserve(s, bookID, memberID);
      && (o.err == None <==> bookID in s && s[bookID].reservedBy == 0 && s[bookID].borrowedBy == 0)
      && (o.err != None ==> o.store == s)
      && (o.err == None ==>
            && o.store.Keys == s.Keys
            && o.store[bookID].reservedBy == memberID
            && !o.store[bookID].available
            && o.store[bookID].borrowedBy == s[bookID].borrowedBy
            && SameRecord(o.store[bookID], s[bookID])
            && (forall id :: id in s && id != bookID ==> o.store[id] == s[id]))
  {
  }

  /** A borrow succeeds exactly when the book exists, is reserved by this member and is
      not borrowed; it then records the borrower and clears the reservation; every
      failure leaves the store unchanged. */
  lemma BorrowContract(s: Store, bookID: int, memberID: int)
    ensures var o := Borrow(s, bookID, memberID);
      && (o.err == None <==> bookID in s && s[bookID].reservedBy == memberID && s[bookID].borrowedBy == 0)
      && (o.err != None ==> o.store == s)
      && (bookID !in s ==> o.err == Some(BookNotFound))
      && (o.err == None ==>
            && o.store.Keys == s.Keys
            && o.store[bookID].borrowedBy == memberID
            && o.store[bookID].reservedBy == 0
            && !o.store[bookID].available
            && SameRecord(o.store[bookID], s[bookID])
            && (forall id :: id in s && id != bookID ==> o.store[id] == s[id]))
  {
  }

  /** The timer releases the reservation exactly when it is still this member's and the
      book is not borrowed; in every other case it is a no-op. */
  lemma AutoCancelContract(s: Store, bookID: int, memberID: int)
    ensures var t := AutoCancel(s, bookID, memberID);
      && (t != s ==> bookID in s && s[bookID].reservedBy == memberID && s[bookID].borrowedBy == 0)
      && (bookID in s && s[bookID].reservedBy == memberID && s[bookID].borrowedBy == 0 ==>
            && t.Keys == s.Keys
            && t[bookID].reservedBy == 0
            && t[bookID].available
            && t[bookID].borrowedBy == 0
            && SameRecord(t[bookID], s[bookID])
            && (forall id :: id in s && id != bookID ==> t[id] == s[id]))
  {
  }

  // ---------------------------------------------------------------------------------
  // The invariant survives every transition
  // ---------------------------------------------------------------------------------

  lemma AddPreserves(s: Store, b: Book)
    requires Consistent(s) && ConsistentBook(b)
    ensures Consistent(Add(s, b))
  {
  }

  lemma ReservePreserves(s: Store, bookID: int, memberID: int)
    requires Consistent(s) && memberID != 0
    ensures Consistent(Reserve(s, bookID, memberID).store)
  {
  }

  lemma BorrowPreserves(s: Store, bookID: int, memberID: int)
    requires Consistent(s) && memberID != 0
    ensures Consistent(Borrow(s, bookID, memberID).store)
  {
  }

  lemma AutoCancelPreserves(s: Store, bookID: int, memberID: int)
    requires Consistent(s)
    ensures Consistent(AutoCancel(s, bookID, memberID))
  {
  }

  /** Member id 0 breaks the invariant: `ProcessBorrow(b, 0)` on an available book passes
      the "reserved by this member" check, because an unreserved book has `reservedBy == 0`,
      and leaves the book unavailable with nobody holding it. */
  lemma ZeroMemberBreaksInvariant()
    ensures var s := map[1 := Book(1, "", "", true, 0, 0)];
      && Consistent(s)
      && Borrow(s, 1, 0).err == None
      && !Consistent(Borrow(s, 1, 0).store)
  {
    var s := map[1 := Book(1, "", "", true, 0, 0)];
    var t := Borrow(s, 1, 0).store;
    assert t[1] == Book(1, "", "", false, 0, 0);
  }

  /** Under the invariant and with a nonzero member, the "book already borrowed" branch of
      `ProcessBorrow` cannot be reached: a book reserved by someone is not borrowed. */
  lemma BorrowedBranchUnreachable(s: Store, bookID: int, memberID: int)
    requires Consistent(s) && memberID != 0
    ensures Borrow(s, bookID, memberID).err != Some(AlreadyBorrowed)
  {
    if bookID in s && s[bookID].reservedBy == memberID {
      assert ConsistentBook(s[bookID]);
    }
  }

  // ---------------------------------------------------------------------------------
  // Interleavings: the atomic steps taken in any order
  // ---------------------------------------------------------------------------------

  /** One critical section, as run by a caller, a handler, a timer or a borrow goroutine. */
  datatype Step =
    | AddStep(book: Book)
    | ReserveStep(bookID: int, memberID: int)
    | BorrowStep(bookID: int, memberID: int)
    | CancelStep(bookID: int, memberID: int)

  /** The steps the invariant theorem admits: nonzero members and consistent new books. */
  predicate WellFormed(step: Step)
  {
    match step
    case AddStep(b) => ConsistentBook(b)
    case ReserveStep(_, m) => m != 0
    case BorrowStep(_, m) => m != 0
    case CancelStep(_, m) => m != 0
  }

  /** Apply one step; the timer and `AddBook` report no error. Only `AddBook` brings in a
      new key, and no step removes one. */
  function Apply(s: Store, step: Step): (o: Outcome)
    ensures o.store.Keys == if step.AddStep? then s.Keys + {step.book.id} else s.Keys
    ensures (step.AddStep? || step.CancelStep?) ==> o.err == None
  {
    match step
    case AddStep(b) => Outcome(Add(s, b), None)
    case ReserveStep(id, m) => Reserve(s, id, m)
    case BorrowStep(id, m) => Borrow(s, id, m)
    case CancelStep(id, m) => Outcome(AutoCancel(s, id, m), None)
  }

  /** The final store and the error reported by each step, when `steps` run in that order. */
  datatype Trace = Trace(store: Store, errs: seq<Option<Error>>)

  function Run(s: Store, steps: seq<Step>): (t: Trace)
    ensures |t.errs| == |steps|
    decreases |steps|
  {
    if steps == [] then Trace(s, [])
    else
      var o := Apply(s, steps[0]);
      var rest := Run(o.store, steps[1..]);
      Trace(rest.store, [o.err] + rest.errs)
  }

  lemma StepPreserves(s: Store, step: Step)
    requires Consistent(s) && WellFormed(step)
    ensures Consistent(Apply(s, step).store)
  {
    match step
    case AddStep(b) => AddPreserves(s, b);
    case ReserveStep(id, m) => ReservePreserves(s, id, m);
    case BorrowStep(id, m) => BorrowPreserves(s, id, m);
    case CancelStep(id, m) => AutoCancelPreserves(s, id, m);
  }

  /** Mutual exclusion: whatever order the scheduler picks for the critical sections, the
      store stays consistent, so no book is ever both reserved and borrowed. */
  lemma {:induction false} RunPreserves(s: Store, steps: seq<Step>)
    requires Consistent(s)
    requires forall i :: 0 <= i < |steps| ==> WellFormed(steps[i])
    ensures Consistent(Run(s, steps).store)
    decreases |steps|
  {
    if steps != [] {
      StepPreserves(s, steps[0]);
      RunPreserves(Apply(s, steps[0]).store, steps[1..]);
    }
  }

  /** No interleaving loses a book: every key of the store survives any run. */
  lemma {:induction false} RunKeepsBooks(s: Store, steps: seq<Step>)
    ensures s.Keys <= Run(s, steps).store.Keys
    decreases |steps|
  {
    if steps != [] {
      RunKeepsBooks(Apply(s, steps[0]).store, steps[1..]);
    }
  }

  /** The reservation steps of `members` on one book, in that order. */
  function Reservations(bookID: int, members: seq<int>): (steps: seq<Step>)
    ensures |steps| == |members|
    ensures forall i :: 0 <= i < |members| ==> steps[i] == ReserveStep(bookID, members[i])
  {
    if members == [] then [] else [ReserveStep(bookID, members[0])] + Reservations(bookID, members[1..])
  }

  /** Once a book is reserved by a nonzero member, every further reservation attempt on it
      fails with "already reserved" naming that member, and the book stays reserved. */
  lemma {:induction false} ReservedStaysReserved(s: Store, bookID: int, holder: int, members: seq<int>)
    requires bookID in s && s[bookID].reservedBy == holder && holder != 0
    ensures var t := Run(s, Reservations(bookID, members));
      && t.store == s
      && forall i :: 0 <= i < |members| ==> t.errs[i] == Some(AlreadyReservedBy(bookID, holder))
    decreases |members|
  {
    if members != [] {
      var steps := Reservations(bookID, members);
      assert steps[1..] == Reservations(bookID, members[1..]);
      ReservedStaysReserved(s, bookID, holder, members[1..]);
    }
  }

  /** No double reservation: when several nonzero members reserve the same free book in
      any order, exactly the first one succeeds and every later one is told that the book
      is already reserved by the first. */
  lemma {:induction false} FirstReservationWins(s: Store, bookID: int, members: seq<int>)
    requires bookID in s && s[bookID].reservedBy == 0 && s[bookID].borrowedBy == 0
    requires |members| > 0
    requires forall i :: 0 <= i < |members| ==> members[i] != 0
    ensures var t := Run(s, Reservations(bookID, members));
      && t.errs[0] == None
      && (forall i :: 1 <= i < |members| ==> t.errs[i] == Some(AlreadyReservedBy(bookID, members[0])))
      && t.store == Reserve(s, bookID, members[0]).store
      && t.store[bookID].reservedBy == members[0]
  {
    var steps := Reservations(bookID, members);
    var first := Reserve(s, bookID, members[0]);
    assert steps[1..] == Reservations(bookID, members[1..]);
    ReservedStaysReserved(first.store, bookID, members[0], members[1..]);
  }

  /** The race between the auto-cancel timer and the borrow attempt of the member holding
      the reservation: if the borrow runs first it succeeds and the timer is then a no-op
      (it never undoes a borrow); if the timer runs first the reservation is released and
      the borrow then fails with "not reserved by this member". Both ends are consistent. */
  lemma {:induction false} TimerBorrowRace(s: Store, bookID: int, memberID: int)
    requires Consistent(s) && memberID != 0
    requires bookID in s && s[bookID].reservedBy == memberID
    ensures var borrowFirst := Run(s, [BorrowStep(bookID, memberID), CancelStep(bookID, memberID)]);
      && borrowFirst.errs[0] == None
      && bookID in borrowFirst.store
      && borrowFirst.store[bookID].borrowedBy == memberID
      && borrowFirst.store[bookID].reservedBy == 0
      && !borrowFirst.store[bookID].available
      && Consistent(borrowFirst.store)
    ensures var cancelFirst := Run(s, [CancelStep(bookID, memberID), BorrowStep(bookID, memberID)]);
      && cancelFirst.errs[1] == Some(NotReservedByMember)
      && bookID in cancelFirst.store
      && cancelFirst.store[bookID].reservedBy == 0
      && cancelFirst.store[bookID].borrowedBy == 0
      && cancelFirst.store[bookID].available
      && Consistent(cancelFirst.store)
  {
    assert ConsistentBook(s[bookID]);
    var borrowSteps := [BorrowStep(bookID, memberID), CancelStep(bookID, memberID)];
    var b := Borrow(s, bookID, memberID).store;
    assert AutoCancel(b, bookID, memberID) == b;
    assert borrowSteps[1..] == [CancelStep(bookID, memberID)];
    assert Run(b, borrowSteps[1..]) == Trace(b, [None]);
    assert Run(s, borrowSteps) == Trace(b, [None, None]);
    BorrowPreserves(s, bookID, memberID);

    var cancelSteps := [CancelStep(bookID, memberID), BorrowStep(bookID, memberID)];
    var c := AutoCancel(s, bookID, memberID);
    assert cancelSteps[1..] == [BorrowStep(bookID, memberID)];
    assert Run(c, cancelSteps[1..]) == Trace(c, [Some(NotReservedByMember)]);
    assert Run(s, cancelSteps) == Trace(c, [None, Some(NotReservedByMember)]);
    AutoCancelPreserves(s, bookID, memberID);
  }

  /** Once a book is borrowed, no auto-cancel timer (of any member) changes the store. */
  lemma CancelNeverUndoesBorrow(s: Store, bookID: int, memberID: int)
    requires bookID in s && s[bookID].borrowedBy != 0
    ensures AutoCancel(s, bookID, memberID) == s
  {
  }

  // ---------------------------------------------------------------------------------
  // The library object
  // ---------------------------------------------------------------------------------

  /** The in-memory library: the book map, the flag recording whether the reservation
      worker runs, and whether its quit channel has been closed (which `Shutdown` does once
      and for all). Each method is one critical section. */
  class InMemoryLibrary {
    var books: Store
    var workerOn: bool
    var quitClosed: bool

    ghost predicate Valid()
      reads this
    {
      Consistent(books)
    }

    /** `NewInMemoryLibrary`: no books, worker not started. */
    constructor ()
      ensures books == map[] && !workerOn && !quitClosed && Valid()
    {
      books := map[];
      workerOn := false;
      quitClosed := false;
    }

    /** Store the book under its id, overwriting any earlier record with that id. */
    method AddBook(b: Book)
      modifies this
      ensures books == Add(old(books), b)
      ensures workerOn == old(workerOn) && quitClosed == old(quitClosed)
      ensures old(Valid()) && ConsistentBook(b) ==> Valid()
    {
      books := books[b.id := b];
      if old(Valid()) && ConsistentBook(b) {
        AddPreserves(old(books), b);
      }
    }

    /** Look a book up; an unknown id is "book not found". */
    method GetBook(id: int) returns (r: Result<Book, Error>)
      ensures id in books ==> r == Ok(books[id])
      ensures id !in books ==> r == Err(BookNotFound)
    {
      if id !in books {
        return Err(BookNotFound);
      }
      r := Ok(books[id]);
    }

    /** The compare-and-set run by an explicit borrow request and by the asynchronous
        borrow attempt that follows every accepted reservation. */
    method ProcessBorrow(bookID: int, memberID: int) returns (err: Option<Error>)
      modifies this
      ensures Outcome(books, err) == Borrow(old(books), bookID, memberID)
      ensures workerOn == old(workerOn) && quitClosed == old(quitClosed)
      ensures old(Valid()) && memberID != 0 ==> Valid()
    {
      if bookID !in books {
        return Some(BookNotFound);
      }
      var b := books[bookID];
      if b.reservedBy != memberID {
        return Some(NotReservedByMember);
      }
      if b.borrowedBy != 0 {
        return Some(AlreadyBorrowed);
      }
      books := books[bookID := b.(borrowedBy := memberID, reservedBy := 0, available := false)];
      err := None;
      if old(Valid()) && memberID != 0 {
        BorrowPreserves(old(books), bookID, memberID);
      }
    }

    /** Start the reservation worker; a second call finds the flag set and does nothing.
        A dispatcher started after `Shutdown` finds the quit channel closed. */
    method StartReservationWorker()
      modifies this
      ensures workerOn
      ensures books == old(books) && quitClosed == old(quitClosed)
    {
      if workerOn {
        return;
      }
      workerOn := true;
    }

    /** The reservation handler's check-and-set, run for each dispatched request. */
    method HandleReservation(bookID: int, memberID: int) returns (err: Option<Error>)
      modifies this
      ensures Outcome(books, err) == Reserve(old(books), bookID, memberID)
      ensures workerOn == old(workerOn) && quitClosed == old(quitClosed)
      ensures old(Valid()) && memberID != 0 ==> Valid()
    {
      if bookID !in books {
        return Some(BookNotFound);
      }
      var b := books[bookID];
      if b.reservedBy != 0 {
        return Some(AlreadyReservedBy(bookID, b.reservedBy));
      }
      if b.borrowedBy != 0 {
        return Some(AlreadyBorrowedBy(bookID, b.borrowedBy));
      }
      books := books[bookID := b.(reservedBy := memberID, available := false)];
      err := None;
      if old(Valid()) && memberID != 0 {
        ReservePreserves(old(books), bookID, memberID);
      }
    }

    /** Submit a reservation. It is refused outright while the worker is not running;
        `queued` says whether the request entered the queue before the submission timeout
        (the clock and the queue's capacity are outside the model). While the quit channel
        is open the dispatcher takes every queued request and the handler's check-and-set
        answers it. Once the quit channel is closed, a restarted dispatcher selects between
        the request and the closed channel at random: `dispatched` says whether it took the
        request; otherwise the caller waits forever for the answer (`answered` is false). */
    method ReserveBook(bookID: int, memberID: int, queued: bool, dispatched: bool)
      returns (err: Option<Error>, answered: bool)
      modifies this
      ensures workerOn == old(workerOn) && quitClosed == old(quitClosed)
      ensures !old(workerOn) ==> answered && err == Some(WorkerNotStarted) && books == old(books)
      ensures old(workerOn) && !queued ==> answered && err == Some(QueueTimeout) && books == old(books)
      ensures old(workerOn) && queued && (!old(quitClosed) || dispatched) ==>
                answered && Outcome(books, err) == Reserve(old(books), bookID, memberID)
      ensures old(workerOn) && queued && old(quitClosed) && !dispatched ==>
                !answered && err == None && books == old(books)
      ensures old(Valid()) && memberID != 0 ==> Valid()
    {
      if !workerOn {
        return Some(WorkerNotStarted), true;
      }
      if !queued {
        return Some(QueueTimeout), true;
      }
      if quitClosed && !dispatched {
        return None, false;
      }
      err := HandleReservation(bookID, memberID);
      answered := true;
    }

    /** The critical section of the auto-cancel timer when it fires. */
    method AutoCancelReservation(bookID: int, memberID: int)
      modifies this
      ensures books == AutoCancel(old(books), bookID, memberID)
      ensures workerOn == old(workerOn) && quitClosed == old(quitClosed)
      ensures old(Valid()) ==> Valid()
    {
      if bookID !in books {
        return;
      }
      var cur := books[bookID];
      if cur.reservedBy == memberID && cur.borrowedBy == 0 {
        books := books[bookID := cur.(reservedBy := 0, available := true)];
      }
      if old(Valid()) {
        AutoCancelPreserves(old(books), bookID, memberID);
      }
    }

    /** Stop the worker: close the quit channel, then clear the flag so that later
        reservations are refused. Closing the channel a second time panics before the flag
        is touched (`panicked`). */
    method Shutdown() returns (panicked: bool)
      modifies this
      ensures panicked == old(quitClosed)
      ensures quitClosed
      ensures panicked ==> workerOn == old(workerOn)
      ensures !panicked ==> !workerOn
      ensures books == old(books)
    {
      if quitClosed {
        return true;
      }
      quitClosed := true;
      workerOn := false;
      panicked := false;
    }
  }

  /** A book is added and member 7 reserves it; member 8's reservation is refused, naming
      member 7; member 7's borrow attempt runs before the timer, so the timer leaves the
      book borrowed. After `Shutdown` a reservation is refused; after a restart, a queued
      request that the dispatcher does not take is never answered. */
  method BorrowBeforeTimeoutScenario()
    returns (first: Option<Error>, second: Option<Error>, borrowed: Book, refused: Option<Error>,
             answeredAfterRestart: bool)
    ensures first == None && second == Some(AlreadyReservedBy(2, 7))
    ensures borrowed.borrowedBy == 7 && borrowed.reservedBy == 0 && !borrowed.available
    ensures refused == Some(WorkerNotStarted)
    ensures !answeredAfterRestart
  {
    var lib := new InMemoryLibrary();
    lib.AddBook(Book(2, "Clean Code", "R. Martin", true, 0, 0));
    lib.StartReservationWorker();
    var a1, a2;
    first, a1 := lib.ReserveBook(2, 7, true, true);
    second, a2 := lib.ReserveBook(2, 8, true, false);
    var e3 := lib.ProcessBorrow(2, 7);
    assert e3 == None;
    lib.AutoCancelReservation(2, 7);
    var r := lib.GetBook(2);
    borrowed := r.value;
    var p := lib.Shutdown();
    var a4;
    refused, a4 := lib.ReserveBook(2, 9, true, true);
    lib.StartReservationWorker();
    var e5;
    e5, answeredAfterRestart := lib.ReserveBook(2, 9, true, false);
  }
}
