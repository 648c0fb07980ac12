# A2SV backend-track exercises in Dafny

This project models the core of a set of Go exercises and proves properties of the model:

- **Concurrent book reservation** (`reservation.dfy`). An in-memory library keeps book records. Each record holds `Available`, `ReservedBy` and `BorrowedBy`.
  - A reservation request goes through a worker queue to a handler. The handler reserves the book in one check-and-set under the library mutex.
  - Each accepted reservation then starts two goroutines that race: an auto-cancel timer and an asynchronous borrow attempt.
  - Every critical section is one transition function on the store. An arbitrary interleaving of the goroutines is a sequence of `Step`s folded by `Run`.
  - The class `InMemoryLibrary` holds the book map, the `workerOn` flag and whether the `quit` channel has been closed. Each method that runs a critical section is proved equal to its transition.
  - `ReserveBook` after `Shutdown` and a restart is modelled too: the new dispatcher may exit on the closed `quit` channel, and the request is then never answered.
  - Main results:
    - the store invariant holds in every interleaving: a book is never reserved and borrowed at once, and `Available` holds exactly when nobody holds the book;
    - among competing reservations of a free book, exactly the first succeeds;
    - both outcomes of the timer/borrow race are consistent, and the timer never undoes a borrow.
- **Library management** (`simple_library.dfy`). A single-threaded library with a book map and a member map, as a class with `AddBook`, `RemoveBook`, `BorrowBook`, `ReturnBook`, `ListAvailableBooks` and `ListBorrowedBooks`.
  - `ReturnBook`'s filtering loop is proved against the function `WithoutBook`.
  - A return undoes a borrow.
  - Listing the available books visits the map in an unspecified order, modelled as a ghost enumeration of its keys.
- **Task management** (`task_table.dfy`). The in-memory task table: a class holding the task map and the id counter `next`, with create, list, update and delete.
  - Covered: the due-date rule of updates, the error cases, and the fact that ids are never reused.
- **Palindrome** (`palindrome.dfy`). Lower-case the text, keep `a-z0-9`, and compare it from both ends with an index loop. Proved against "the cleaned text equals its reverse".
- **Word frequency** (`word_freq.dfy`). Lower-case, delete `[^\w\s]`, split with `strings.Fields`, then count in a map.
  - The counting loop is proved to yield, for each word, its number of occurrences.
  - The counts add up to the number of words, and every key is a non-empty run of `[a-z0-9_]`.
  - The sample sentence of the exercise is evaluated.
  - The two identical copies of the function (`2-go-fundamentals/wordfreq/wordfreq.go:9-20` and `task-2-fundamentals-of-go-tasks/word-frequency-count.go:11-28`) share one Dafny method.
- **Sum of numbers** (`sum.dfy`). The accumulator loop over a slice of 64-bit Go `int`s (64-bit platforms), with the wrap-around written out. It is proved against the mathematical sum, wrapped.

Shared pieces:

- `wrappers.dfy`: `Option` and `Result`.
- `ascii.dfy`: `strings.ToLower` on ASCII.
- `mapenum.dfy`: a sequence that enumerates a map's keys, which models a Go `range` over a map.

## Model

| member | source | states |
|---|---|---|
| Reservation.Add | 4-concurrent-book-reservation/services/library_service.go:51-55 | the record is stored under its id; every other book is kept and no key is lost |
| Reservation.Reserve | 4-concurrent-book-reservation/services/library_service.go:150-168 | the reservation check-and-set never adds or removes a book, and a refused reservation changes nothing |
| Reservation.Borrow | 4-concurrent-book-reservation/services/library_service.go:92-113 | the borrow compare-and-set never adds or removes a book, and a refused borrow changes nothing |
| Reservation.AutoCancel | 4-concurrent-book-reservation/services/library_service.go:179-190 | the timer's critical section never adds or removes a book |
| Reservation.ReserveMissing | 4-concurrent-book-reservation/services/library_service.go:150-155 | reserving an unknown id reports "book not found" and changes nothing |
| Reservation.ReserveContract | 4-concurrent-book-reservation/services/library_service.go:150-168 | a reservation succeeds iff the book exists and is neither reserved nor borrowed; on success it records the member, clears `Available`, keeps the borrower, id and every other book; on failure the store is unchanged |
| Reservation.BorrowContract | 4-concurrent-book-reservation/services/library_service.go:92-113 | a borrow succeeds iff the book exists, is reserved by this member and is not borrowed; on success the member is the borrower, the reservation is cleared, `Available` is false and nothing else changes; every failure leaves the store unchanged, an unknown id being "book not found" |
| Reservation.AutoCancelContract | 4-concurrent-book-reservation/services/library_service.go:179-190 | the timer changes the store only when the book is still reserved by this member and not borrowed, and then releases it (reservation cleared, `Available` set) and touches nothing else |
| Reservation.AddPreserves | 4-concurrent-book-reservation/services/library_service.go:51-55 | storing a consistent record keeps the store invariant |
| Reservation.ReservePreserves | 4-concurrent-book-reservation/services/library_service.go:150-168 | the reservation check-and-set keeps the store invariant for a nonzero member |
| Reservation.BorrowPreserves | 4-concurrent-book-reservation/services/library_service.go:92-113 | the borrow compare-and-set keeps the store invariant for a nonzero member |
| Reservation.AutoCancelPreserves | 4-concurrent-book-reservation/services/library_service.go:179-190 | the auto-cancel critical section keeps the store invariant |
| Reservation.ZeroMemberBreaksInvariant | 4-concurrent-book-reservation/services/library_service.go:101-111 | with member id 0, `ProcessBorrow` on an available book passes the "reserved by this member" check and leaves a record that is unavailable with nobody holding it |
| Reservation.BorrowedBranchUnreachable | 4-concurrent-book-reservation/services/library_service.go:104-106 | under the invariant and with a nonzero member, the "book already borrowed" error of `ProcessBorrow` never occurs |
| Reservation.Apply | 4-concurrent-book-reservation/services/library_service.go:51-222 | only `AddBook` brings in a new key and no critical section removes one; `AddBook` and the timer report no error |
| Reservation.Run | 4-concurrent-book-reservation/services/library_service.go:128-143 | running a sequence of critical sections reports one result per section |
| Reservation.StepPreserves | 4-concurrent-book-reservation/services/library_service.go:148-222 | each kind of critical section (add, reserve, borrow, timer) keeps the store invariant |
| Reservation.RunPreserves | 4-concurrent-book-reservation/services/library_service.go:148-222 | in every interleaving of the critical sections the store stays consistent: no book is ever both reserved and borrowed |
| Reservation.RunKeepsBooks | 4-concurrent-book-reservation/services/library_service.go:51-222 | no interleaving of the critical sections loses a book |
| Reservation.Reservations | 4-concurrent-book-reservation/services/library_service.go:70-88 | the reservation requests of a list of members on one book, one per member in that order |
| Reservation.ReservedStaysReserved | 4-concurrent-book-reservation/services/library_service.go:156-159 | once a book is reserved by a nonzero member, every further reservation attempt fails naming that member and leaves the store unchanged |
| Reservation.FirstReservationWins | 4-concurrent-book-reservation/services/library_service.go:150-168 | among reservations of a free book by nonzero members, the first succeeds and every later one is told the book is reserved by the first |
| Reservation.TimerBorrowRace | 4-concurrent-book-reservation/services/library_service.go:170-219 | borrow-then-timer ends borrowed by the member with the timer a no-op; timer-then-borrow ends released with the borrow failing "not reserved by this member"; both ends are consistent |
| Reservation.CancelNeverUndoesBorrow | 4-concurrent-book-reservation/services/library_service.go:185-190 | a timer firing on a borrowed book changes nothing |
| Reservation.InMemoryLibrary.constructor | 4-concurrent-book-reservation/services/library_service.go:41-49 | a new library has no books, its worker is off, its quit channel is open, and it satisfies the invariant |
| Reservation.InMemoryLibrary.AddBook | 4-concurrent-book-reservation/services/library_service.go:51-55 | the record is stored under its id, replacing any earlier one; the invariant is kept for a consistent record |
| Reservation.InMemoryLibrary.GetBook | 4-concurrent-book-reservation/services/library_service.go:57-66 | returns the stored record, or "book not found" for an unknown id |
| Reservation.InMemoryLibrary.ProcessBorrow | 4-concurrent-book-reservation/services/library_service.go:92-113 | the new store and the error are exactly those of the borrow transition; the invariant is kept for a nonzero member |
| Reservation.InMemoryLibrary.StartReservationWorker | 4-concurrent-book-reservation/services/library_service.go:116-143 | afterwards the worker is on (a second call changes nothing); the books and the quit channel are untouched |
| Reservation.InMemoryLibrary.HandleReservation | 4-concurrent-book-reservation/services/library_service.go:148-168 | the new store and the error are exactly those of the reservation transition; the invariant is kept for a nonzero member |
| Reservation.InMemoryLibrary.ReserveBook | 4-concurrent-book-reservation/services/library_service.go:70-88 | refused with "worker not started" while the worker is off, and with "failed to queue" when the request is not queued in time, both without change; a queued request gets the reservation transition's result while the quit channel is open, or when a restarted dispatcher takes it; otherwise it is never answered and nothing changes |
| Reservation.InMemoryLibrary.AutoCancelReservation | 4-concurrent-book-reservation/services/library_service.go:179-190 | the new store is exactly the auto-cancel transition's; the invariant is kept |
| Reservation.InMemoryLibrary.Shutdown | 4-concurrent-book-reservation/services/library_service.go:225-231 | the quit channel is closed; on the first call the worker is then off; a second call panics on the closed channel before touching the flag; the books are untouched |
| Reservation.BorrowBeforeTimeoutScenario | 4-concurrent-book-reservation/services/library_service.go:70-232 | member 7 reserves a free book and member 8 is refused naming 7; the borrow before the timer leaves the book borrowed by 7; after `Shutdown` a reservation is refused; after a restart, a request the dispatcher does not take is never answered |
| SimpleLibrary.WithoutBook | 3-library-management/services/library_service.go:70-78 | the filtered list is no longer than the original, holds no entry with the id, and only entries of the original |
| SimpleLibrary.AvailableAlong | 3-library-management/services/library_service.go:91-99 | at most one listed book per visited key, each with status "Available" |
| SimpleLibrary.WithoutBookAppend | 3-library-management/services/library_service.go:70-78 | the return filter distributes over concatenation, so kept entries stay in order |
| SimpleLibrary.WithoutBookCount | 3-library-management/services/library_service.go:72-78 | the filter removes every entry with the id and keeps every other entry with its multiplicity |
| SimpleLibrary.WithoutBookUnmatched | 3-library-management/services/library_service.go:72-78 | a list with no entry for the id passes through the filter unchanged |
| SimpleLibrary.ReturnUndoesBorrow | 3-library-management/services/library_service.go:53-78 | filtering out a book that borrowing appended to a list without it gives back the original list |
| SimpleLibrary.AvailableAlongMembers | 3-library-management/services/library_service.go:91-99 | a book is listed along a key order iff its status is "Available" and it is stored under a key of that order |
| SimpleLibrary.AvailableAlongValues | 3-library-management/services/library_service.go:91-99 | along an enumeration of all keys, a stored book is listed iff its status is "Available", and only stored books are listed |
| SimpleLibrary.Library.constructor | 3-library-management/services/library_service.go:22-27 | both maps start empty |
| SimpleLibrary.Library.AddBook | 3-library-management/services/library_service.go:29-32 | the book is stored under its id with status "Available", replacing any earlier one; members untouched |
| SimpleLibrary.Library.RemoveBook | 3-library-management/services/library_service.go:34-36 | the key is deleted; members untouched |
| SimpleLibrary.Library.BorrowBook | 3-library-management/services/library_service.go:38-57 | errors in the source's order (book missing, already "Borrowed", member missing) leave both maps unchanged; success marks the book "Borrowed" and appends that copy to the member's list, and happens exactly when no check fails |
| SimpleLibrary.Library.ReturnBook | 3-library-management/services/library_service.go:59-89 | errors in the source's order (member missing, book missing, not in the member's list) leave both maps unchanged; success marks the book "Available" and removes every entry with that id from the list, and happens exactly when no check fails |
| SimpleLibrary.Library.ListAvailableBooks | 3-library-management/services/library_service.go:91-99 | visits each key once in some order; a stored book is listed iff its status is "Available", and only stored books are listed |
| SimpleLibrary.Library.ListBorrowedBooks | 3-library-management/services/library_service.go:101-107 | the member's list, or an empty list for an unknown member |
| TaskTable.RequestedDue | 5-task-management/data/task_services.go:36-41 | the only error is "invalid date", and a non-empty text yields exactly the date it parses to |
| TaskTable.UpdatedDue | 5-task-management/data/task_services.go:99-110 | the stored date is the requested one unless that is the zero instant, in which case it is the old date or the zero value |
| TaskTable.DueDateRule | 5-task-management/data/task_services.go:99-110 | an empty due-date string keeps the stored date; a parsed date replaces it, a parsed date at the zero instant being stored as the zero value |
| TaskTable.RequestedDueErrors | 5-task-management/data/task_services.go:36-41 | only a non-empty date that does not parse is refused |
| TaskTable.TaskService.constructor | 5-task-management/data/task_services.go:26-29 | no tasks, and the first id handed out is 1 |
| TaskTable.TaskService.CreateTask | 5-task-management/data/task_services.go:33-60 | an unparseable date is refused without change; otherwise the task gets id `next`, which was unused, is stored there, and `next` grows by one; the table invariant is kept |
| TaskTable.TaskService.GetAllTasks | 5-task-management/data/task_services.go:64-74 | every stored task exactly once, in an unspecified key order: as many entries as tasks, and a task is listed iff it is stored |
| TaskTable.TaskService.UpdateTask | 5-task-management/data/task_services.go:78-116 | the date is checked before the id; an unknown id is "task not found"; otherwise title, description and status are replaced, the due-date rule applied, and only that entry changes |
| TaskTable.TaskService.DeleteTask | 5-task-management/data/task_services.go:120-129 | an unknown id is "task not found" without change; otherwise only that entry is removed and `next` is kept, so ids are never reused |
| TaskTable.NoReuseScenario | 5-task-management/data/task_services.go:33-129 | creating two tasks gives ids 1 and 2; after deleting 2 the next create gets id 3, and updating 2 reports "task not found" |
| Ascii.LowerChar | 2-go-fundamentals/palindrome/palindrome.go:10 | the result is never an upper-case letter; only upper-case letters change, each into the lower-case letter at the same place in the alphabet |
| Ascii.ToLower | 2-go-fundamentals/palindrome/palindrome.go:10 | same length, works character by character, and leaves no upper-case letter in the text |
| Ascii.ToLowerIdempotent | 2-go-fundamentals/palindrome/palindrome.go:10 | lower-casing a lower-cased text changes nothing |
| Ascii.LowerCharIdempotent | 2-go-fundamentals/palindrome/palindrome.go:10 | lower-casing twice is lower-casing once, and never yields an upper-case letter |
| Ascii.ToLowerIgnoresCase | 2-go-fundamentals/palindrome/palindrome.go:10 | texts differing only in letter case lower-case to the same text |
| Ascii.ToLowerAppend | 2-go-fundamentals/wordfreq/wordfreq.go:10 | lower-casing distributes over concatenation |
| Palindrome.KeepAlnum | 2-go-fundamentals/palindrome/palindrome.go:11-12 | the kept text has only `a-z0-9` characters |
| Palindrome.Cleaned | 2-go-fundamentals/palindrome/palindrome.go:10-12 | the cleaned text is no longer than the input and holds only `a-z0-9` |
| Palindrome.CleanedAppend | 2-go-fundamentals/palindrome/palindrome.go:10-12 | cleaning a concatenation cleans each part |
| Palindrome.KeepAlnumAppend | 2-go-fundamentals/palindrome/palindrome.go:11-12 | the filter distributes over concatenation |
| Palindrome.ReverseAt | 2-go-fundamentals/palindrome/palindrome.go:16 | index `k` of the reverse is index `n-1-k` of the text |
| Palindrome.ReverseOfMirrored | 2-go-fundamentals/palindrome/palindrome.go:15-20 | a text whose first half mirrors its second half equals its reverse |
| Palindrome.MirroredOfReverse | 2-go-fundamentals/palindrome/palindrome.go:15-20 | a text equal to its reverse passes every comparison the loop makes |
| Palindrome.MirrorIffReverse | 2-go-fundamentals/palindrome/palindrome.go:15-20 | comparing `i` with `n-1-i` for all `i < n/2` decides, in both directions, whether the text equals its reverse |
| Palindrome.Palindromic | 2-go-fundamentals/palindrome/palindrome.go:9-20 | the function's answer, "the cleaned text equals its reverse", holds iff the cleaned text passes every comparison of the loop |
| Palindrome.IsPalindrome | 2-go-fundamentals/palindrome/palindrome.go:9-20 | true iff the cleaned text equals its reverse; every index the loop reads is in bounds |
| Palindrome.IgnoresPunctuation | 2-go-fundamentals/palindrome/palindrome.go:11-12 | inserting a character outside `a-z0-9` after lower-casing changes neither the cleaned text nor the result |
| Palindrome.IgnoresCase | 2-go-fundamentals/palindrome/palindrome.go:10 | changing the case of ASCII letters does not change the result |
| Palindrome.ShortCleanedIsPalindrome | 2-go-fundamentals/palindrome/palindrome.go:14-20 | text that cleans to at most one character is a palindrome |
| Palindrome.Examples | 2-go-fundamentals/palindrome/palindrome.go:9-20 | "", "!!" and "Aba" are palindromes, "ab" is not |
| WordFreq.RemovePunctuation | 2-go-fundamentals/wordfreq/wordfreq.go:11-12 | what is left is word characters and `\s` white space only |
| WordFreq.RemovePunctuationSubset | 2-go-fundamentals/wordfreq/wordfreq.go:11-12 | deleting punctuation introduces no new character |
| WordFreq.RemovePunctuationAppend | 2-go-fundamentals/wordfreq/wordfreq.go:11-12 | deleting punctuation distributes over concatenation |
| WordFreq.RunLength | 2-go-fundamentals/wordfreq/wordfreq.go:13 | the first field runs up to the first separator, or to the end |
| WordFreq.Fields | 2-go-fundamentals/wordfreq/wordfreq.go:13 | no more fields than characters, and no field is empty |
| WordFreq.Words | 2-go-fundamentals/wordfreq/wordfreq.go:10-13 | no more words than characters in the text |
| WordFreq.FieldsShape | 2-go-fundamentals/wordfreq/wordfreq.go:13 | every field is non-empty and its characters are non-separators taken from the text |
| WordFreq.FieldsOfBlank | 2-go-fundamentals/wordfreq/wordfreq.go:13 | text made only of separators has no fields |
| WordFreq.FieldsSpaceAppend | 2-go-fundamentals/wordfreq/wordfreq.go:13 | the fields of `s + " " + t` are those of `s` followed by those of `t` |
| WordFreq.WordsShape | 2-go-fundamentals/wordfreq/wordfreq.go:10-13 | every counted word is non-empty and made of `[a-z0-9_]` |
| WordFreq.BlankHasNoWords | 2-go-fundamentals/wordfreq/wordfreq.go:10-13 | empty or white-space-only input has no words |
| WordFreq.WordsIgnoreCase | 2-go-fundamentals/wordfreq/wordfreq.go:10 | texts differing only in letter case have the same words, so "Hello" and "hello" share a key |
| WordFreq.PunctuationIsDeleted | 2-go-fundamentals/wordfreq/wordfreq.go:11-13 | punctuation is deleted, not turned into a separator: "Don't" is the single word "dont" |
| WordFreq.WordsSpaceAppend | 2-go-fundamentals/wordfreq/wordfreq.go:10-13 | the words of two texts joined by a space are the words of each, in order |
| WordFreq.SumOverPick | 2-go-fundamentals/wordfreq/wordfreq.go:16-18 | the sum of the counts does not depend on the order in which keys are taken |
| WordFreq.SumOfCountsUpdate | 2-go-fundamentals/wordfreq/wordfreq.go:17 | setting one entry changes the sum of the counts by the difference |
| WordFreq.WordFrequencyCount | 2-go-fundamentals/wordfreq/wordfreq.go:9-20 | the keys are exactly the words; each count is the word's number of occurrences and at least 1; the counts add up to the number of words; every key is a non-empty run of `[a-z0-9_]` |
| WordFreq.SampleSentence | task-2-fundamentals-of-go-tasks/word-frequency-count.go:31 | the sample sentence's words are hello, hello, how, are, you, you, are, doing, great, right |
| WordFreq.SampleCounts | task-2-fundamentals-of-go-tasks/word-frequency-count.go:31-32 | in that word list hello, are and you occur twice and how, doing, great and right once |
| WordFreq.SampleFrequency | task-2-fundamentals-of-go-tasks/word-frequency-count.go:30-33 | counting the sample sentence gives exactly the keys hello, are, you (2 each) and how, doing, great, right (1 each) |
| SumOfNumbers.Wrap | 1-sum-of-numbers/main.go:14 | the 64-bit two's-complement result is congruent to the exact value modulo 2^64, and equal to it when it fits |
| SumOfNumbers.TotalAppend | 1-sum-of-numbers/main.go:13-15 | the sum of a concatenation is the sum of the parts |
| SumOfNumbers.WrapAdd | 1-sum-of-numbers/main.go:13-15 | wrapping after every addition gives the wrapped exact total |
| SumOfNumbers.Sum | 1-sum-of-numbers/main.go:7-17 | the result is the exact sum wrapped to 64 bits, and the exact sum whenever it fits in 64 bits (0 for an empty slice) |
| SumOfNumbers.TestTable | 1-sum-of-numbers/sum_test.go:11-14 | [1..5] sums to 15, [] to 0, [10] to 10, [-1,-2,-3] to -6 |
| SumOfNumbers.Overflow | 1-sum-of-numbers/main.go:14 | adding 1 to the largest `int` wraps to the smallest |

## Left out

- Goroutines, channels, the worker dispatcher and `sync.WaitGroup` are not modelled as processes. Every critical section is one atomic transition, and their interleavings are arbitrary step sequences. Of the `quit` channel only whether it is closed is kept. `Shutdown`'s wait for all goroutines is not modelled.
- The 2-second queueing timeout and the queue capacity `buffer` (`NewInMemoryLibrary`) are not modelled. `ReserveBook` takes a boolean `queued` that says whether the request entered the queue in time, and a boolean `dispatched` that says whether a dispatcher started after `Shutdown` took it (its `select` between the request and the closed `quit` channel is random).
- The 5-second timer, the random 0.5–4 s borrow delay, `rand.Seed` and the `cancelCh` signal are not modelled. They only decide which step runs first, and `TimerBorrowRace` covers both orders.
- Logging with `fmt.Printf` is left out.
- `ReserveBook` reads `workerOn` without the mutex, which is a data race. The model reads the flag atomically.
- `GetBook` returns a pointer that callers could modify outside the mutex. The model returns the record by value, so aliasing of `*models.Book` between the map and callers is not captured.
- Go's `members` map of the reservation library is never read by the core, so it is left out. In the single-threaded library, members are entered by writing the `Members` map directly; no core operation adds them.
- Reservation invariant: it is proved for nonzero member ids only. `ZeroMemberBreaksInvariant` shows what member 0 does.
- `time.Parse(time.RFC3339, …)` is a parameter `parse` of the task operations. RFC 3339 parsing itself is not modelled. A date is an instant together with a zone offset.
- The task service's `sync.RWMutex` is left out: each operation is one atomic method. The controllers, the `GetTask` the controller refers to, and the MongoDB variant are not part of this model.
- Go's `int` is 32 bits wide on 32-bit platforms; the sum is modelled for 64-bit platforms only.
- `strings.ToLower` is modelled on ASCII only; Unicode case mapping is not modelled.
- `strings.Fields` separators are modelled up to U+00FF (the `\s` characters, vertical tab, U+0085 and U+00A0). Other Unicode spaces are not modelled.
- `\w` and `\s` of the regular expression are their ASCII classes.
- Go's palindrome loop compares bytes and the model compares characters. After cleaning only ASCII remains, so the two agree.
- TaskTable.TaskService.CreateTask: the id counter `next` is unbounded, so the model does not wrap it at 64 bits.
- Overflow in the sum exercise is not excluded by a precondition; the wrap-around is modelled instead.
- `main` of the sum exercise, the exercise console programs and the HTTP layers are not modelled.
