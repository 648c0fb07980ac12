/** The single-threaded library: a map of books and a map of members, where each member
    carries the list of books it has borrowed. */
module SimpleLibrary {
  import opened Wrappers
  import opened MapEnum

  /** A book; `status` is free text, "Available" and "Borrowed" being the two values the
      library writes. */
  datatype Book = Book(id: int, title: string, author: string, status: string)

  /** A member and the copies of the books it has borrowed, oldest first. */
  datatype Member = Member(id: int, name: string, borrowedBooks: seq<Book>)

  datatype LibraryError = BookNotFound | BookAlreadyBorrowed | MemberNotFound | BookNotBorrowedByMember

  const AvailableStatus: string := "Available"
  const BorrowedStatus: string := "Borrowed"

  /** Some entry of `list` carries the id `bookID`. */
  predicate HasBook(list: seq<Book>, bookID: int)
  {
    exists b :: b in list && b.id == bookID
  }

  /** `list` with every entry carrying `bookID` dropped, the others kept in order. */
  function WithoutBook(list: seq<Book>, bookID: int): (r: seq<Book>)
    ensures |r| <= |list|
    ensures forall i :: 0 <= i < |r| ==> r[i].id != bookID && r[i] in list
    decreases |list|
  {
    if list == [] then []
    else
      var last := list[|list| - 1];
      WithoutBook(list[..|list| - 1], bookID) + (if last.id == bookID then [] else [last])
  }

  /** The books with status "Available" met along the key order `order`. */
  function AvailableAlong(books: map<int, Book>, order: seq<int>): (r: seq<Book>)
    requires forall i :: 0 <= i < |order| ==> order[i] in books
    ensures |r| <= |order|
    ensures forall i :: 0 <= i < |r| ==> r[i].status == AvailableStatus
    decreases |order|
  {
    if order == [] then []
    else
      var b := books[order[|order| - 1]];
      AvailableAlong(books, order[..|order| - 1]) + (if b.status == AvailableStatus then [b] else [])
  }

  /** Filtering distributes over concatenation, so the kept entries stay in their order. */
  lemma {:induction false} WithoutBookAppend(a: seq<Book>, b: seq<Book>, bookID: int)
    ensures WithoutBook(a + b, bookID) == WithoutBook(a, bookID) + WithoutBook(b, bookID)
    decreases |b|
  {
    if b != [] {
      var b' := b[..|b| - 1];
      var last := b[|b| - 1];
      var tail := if last.id == bookID then [] else [last];
      assert (a + b)[..|a + b| - 1] == a + b';
      assert (a + b)[|a + b| - 1] == last;
      assert WithoutBook(a + b, bookID) == WithoutBook(a + b', bookID) + tail;
      assert WithoutBook(b, bookID) == WithoutBook(b', bookID) + tail;
      WithoutBookAppend(a, b', bookID);
    } else {
      assert a + b == a;
    }
  }

  /** Every entry carrying `bookID` is removed; every other entry keeps its multiplicity. */
  lemma {:induction false} WithoutBookCount(list: seq<Book>, bookID: int, x: Book)
    ensures multiset(WithoutBook(list, bookID))[x] == if x.id == bookID then 0 else multiset(list)[x]
    decreases |list|
  {
    if list != [] {
      var init := list[..|list| - 1];
      assert list == init + [list[|list| - 1]];
      WithoutBookCount(init, bookID, x);
    }
  }

  /** A list without an entry for `bookID` is left as it is. */
  lemma {:induction false} WithoutBookUnmatched(list: seq<Book>, bookID: int)
    requires !HasBook(list, bookID)
    ensures WithoutBook(list, bookID) == list
    decreases |list|
  {
    if list != [] {
      var init := list[..|list| - 1];
      assert list == init + [list[|list| - 1]];
      assert !HasBook(init, bookID) by {
        forall b | b in init ensures b.id != bookID {
          assert b in list;
        }
      }
      WithoutBookUnmatched(init, bookID);
    }
  }

  /** Returning a book undoes borrowing it: a copy appended to a list that held no entry
      for that id is exactly what the return removes. */
  lemma ReturnUndoesBorrow(list: seq<Book>, b: Book)
    requires !HasBook(list, b.id)
    ensures WithoutBook(list + [b], b.id) == list
  {
    WithoutBookAppend(list, [b], b.id);
    WithoutBookUnmatched(list, b.id);
    assert WithoutBook([b], b.id) == WithoutBook([], b.id) + [];
  }

  /** The books listed along a key order are exactly the stored "Available" books at
      those keys. */
  lemma {:induction false} AvailableAlongMembers(books: map<int, Book>, order: seq<int>, x: Book)
    requires forall i :: 0 <= i < |order| ==> order[i] in books
    ensures x in AvailableAlong(books, order) <==>
              x.status == AvailableStatus && exists k :: k in order && books[k] == x
    decreases |order|
  {
    if order != [] {
      var init := order[..|order| - 1];
      var last := order[|order| - 1];
      assert forall k :: k in order <==> k in init || k == last;
      AvailableAlongMembers(books, init, x);
    }
  }

  /** Along an enumeration of all keys, a stored book is listed exactly when its status is
      "Available", and nothing else is listed. */
  lemma AvailableAlongValues(books: map<int, Book>, order: seq<int>)
    requires Enumerates(order, books)
    ensures forall i :: 0 <= i < |order| ==> order[i] in books
    ensures forall k :: k in books ==> (books[k] in AvailableAlong(books, order) <==> books[k].status == AvailableStatus)
    ensures forall b :: b in AvailableAlong(books, order) ==> b.status == AvailableStatus && b in books.Values
  {
    forall k | k in books
      ensures books[k] in AvailableAlong(books, order) <==> books[k].status == AvailableStatus
    {
      AvailableAlongMembers(books, order, books[k]);
      assert k in order;
    }
    forall b | b in AvailableAlong(books, order)
      ensures b.status == AvailableStatus && b in books.Values
    {
      AvailableAlongMembers(books, order, b);
      var k :| k in order && books[k] == b;
      assert k in books;
    }
  }

  class Library {
    var books: map<int, Book>
    var members: map<int, Member>

    /** `NewLibrary`: both maps empty. Members are entered by writing `members` directly. */
    constructor ()
      ensures books == map[] && members == map[]
    {
      books := map[];
      members := map[];
    }

    /** Store the book under its id with its status forced to "Available", replacing any
        book already stored under that id. */
    method AddBook(book: Book)
      modifies this
      ensures books == old(books)[book.id := book.(status := AvailableStatus)]
      ensures members == old(members)
    {
      var b := book.(status := AvailableStatus);
      books := books[b.id := b];
    }

    /** Delete the key; members' lists are not touched. */
    method RemoveBook(bookID: int)
      modifies this
      ensures books == old(books) - {bookID}
      ensures members == old(members)
    {
      books := books - {bookID};
    }

    /** Lend a book to a member: it must exist, must not be "Borrowed", and the member must
        exist (checked in that order). On success the book is marked "Borrowed" and one
        copy of it is appended to the member's list. */
    method BorrowBook(bookID: int, memberID: int) returns (err: Option<LibraryError>)
      modifies this
      ensures bookID !in old(books) ==> err == Some(BookNotFound)
      ensures bookID in old(books) && old(books)[bookID].status == BorrowedStatus ==>
                err == Some(BookAlreadyBorrowed)
      ensures bookID in old(books) && old(books)[bookID].status != BorrowedStatus && memberID !in old(members) ==>
                err == Some(MemberNotFound)
      ensures bookID in old(books) && old(books)[bookID].status != BorrowedStatus && memberID in old(members) ==>
                err == None
      ensures err != None ==> books == old(books) && members == old(members)
      ensures err == None ==>
                && bookID in old(books) && old(books)[bookID].status != BorrowedStatus && memberID in old(members)
                && var lent := old(books)[bookID].(status := BorrowedStatus);
                   && books == old(books)[bookID := lent]
                   && members == old(members)[memberID :=
                        old(members)[memberID].(borrowedBooks := old(members)[memberID].borrowedBooks + [lent])]
    {
      if bookID !in books {
        return Some(BookNotFound);
      }
      var book := books[bookID];
      if book.status == BorrowedStatus {
        return Some(BookAlreadyBorrowed);
      }
      if memberID !in members {
        return Some(MemberNotFound);
      }
      var member := members[memberID];
      book := book.(status := BorrowedStatus);
      member := member.(borrowedBooks := member.borrowedBooks + [book]);
      members := members[memberID := member];
      books := books[bookID := book];
      err := None;
    }

    /** Take a book back from a member: the member must exist, the book must exist, and the
        member's list must hold an entry with that id (checked in that order). On success
        every entry with that id leaves the list and the book is marked "Available". */
    method ReturnBook(bookID: int, memberID: int) returns (err: Option<LibraryError>)
      modifies this
      ensures memberID !in old(members) ==> err == Some(MemberNotFound)
      ensures memberID in old(members) && bookID !in old(books) ==> err == Some(BookNotFound)
      ensures (memberID in old(members) && bookID in old(books) &&
               !HasBook(old(members)[memberID].borrowedBooks, bookID)) ==> err == Some(BookNotBorrowedByMember)
      ensures (memberID in old(members) && bookID in old(books) &&
               HasBook(old(members)[memberID].borrowedBooks, bookID)) ==> err == None
      ensures err != None ==> books == old(books) && members == old(members)
      ensures err == None ==>
                && memberID in old(members) && bookID in old(books)
                && HasBook(old(members)[memberID].borrowedBooks, bookID)
                && books == old(books)[bookID := old(books)[bookID].(status := AvailableStatus)]
                && members == old(members)[memberID :=
                     old(members)[memberID].(borrowedBooks := WithoutBook(old(members)[memberID].borrowedBooks, bookID))]
    {
      if memberID !in members {
        return Some(MemberNotFound);
      }
      var member := members[memberID];
      if bookID !in books {
        return Some(BookNotFound);
      }
      var book := books[bookID];
      var list := member.borrowedBooks;
      var found := false;
      var newBorrowedBooks: seq<Book> := [];
      for i := 0 to |list|
        invariant newBorrowedBooks == WithoutBook(list[..i], bookID)
        invariant found == HasBook(list[..i], bookID)
      {
        assert list[..i + 1] == list[..i] + [list[i]];
        if list[i].id == bookID {
          found := true;
        } else {
          newBorrowedBooks := newBorrowedBooks + [list[i]];
        }
      }
      assert list[..|list|] == list;
      if !found {
        return Some(BookNotBorrowedByMember);
      }
      book := book.(status := AvailableStatus);
      member := member.(borrowedBooks := newBorrowedBooks);
      books := books[bookID := book];
      members := members[memberID := member];
      err := None;
    }

    /** Every stored book whose status is "Available", each key visited once in an
        unspecified order (`order`). */
    method ListAvailableBooks() returns (available: seq<Book>, ghost order: seq<int>)
      ensures Enumerates(order, books)
      ensures available == AvailableAlong(books, order)
      ensures forall k :: k in books ==> (books[k] in available <==> books[k].status == AvailableStatus)
      ensures forall b :: b in available ==> b.status == AvailableStatus && b in books.Values
    {
      available, order := [], [];
      var rest := books.Keys;
      while rest != {}
        invariant rest <= books.Keys
        invariant forall k :: k in order <==> k in books && k !in rest
        invariant forall i :: 0 <= i < |order| ==> order[i] in books
        invariant Distinct(order)
        invariant available == AvailableAlong(books, order)
        decreases rest
      {
        var k := Pick(rest);
        var book := books[k];
        order := order + [k];
        if book.status == AvailableStatus {
          available := available + [book];
        }
        rest := rest - {k};
      }
      AvailableAlongValues(books, order);
    }

    /** The member's borrowed list; an unknown member has none. */
    method ListBorrowedBooks(memberID: int) returns (list: seq<Book>)
      ensures memberID !in members ==> list == []
      ensures memberID in members ==> list == members[memberID].borrowedBooks
    {
      if memberID !in members {
        return [];
      }
      list := members[memberID].borrowedBooks;
    }
  }
}
