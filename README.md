# ICU real-time alert queue, modelled in Dafny

This project models the core of the ICU alert monitor (`Problem3.py`). The
monitor keeps patient alerts `(severity_level, patient_id)` in a binary min-heap
(`icu_alert_queue`, managed with `heapq`). It also keeps a "new alert" event
(`new_alert_event`) and a history of status messages (`alert_messages`). Four
kinds of step touch that state. The first three run while holding `queue_lock`:

- `add_alert` pushes an alert and sets the event;
- one pass of `handle_alerts` pops the least alert, records a "processing" and a
  "finished" message, and clears the event once the queue is empty;
- one pass of `display_alert_queue` shows the pending alerts in ascending order,
  or "No pending alerts" when the queue is empty and the event is clear.

The fourth is a submission of the input form. It calls `add_alert` only when
the patient id is non-empty, with a severity from the fixed choices 1, 2 and 3.
It then appends an "alert added" message to the history without taking the
lock.

Each step is modelled as one atomic transition, a method of the class
`IcuMonitor.AlertMonitor`, whose fields are the queue, the event flag and the
message log. The order is Python's tuple order: severity first, then the patient
id compared as a string, code point by code point (`AlertOrder`). The heap is a
binary min-heap on a sequence with sift-up and sift-down (`BinaryHeap`). It is
proved against the multiset of pending alerts: a push adds exactly the new
alert, and a pop removes exactly one alert, the least one.

Files:

- `alert_order.dfy` (module `AlertOrder`): alerts, Python's string and tuple
  comparison, the facts that it is a total order, the "least pending alert"
  predicate, and `sorted` as an insertion sort.
- `binary_heap.dfy` (module `BinaryHeap`): the heap order, push with sift-up,
  pop with sift-down, and the lemmas each sift step needs.
- `icu_monitor.dfy` (module `IcuMonitor`): the monitor's state and its steps,
  plus a worked example of three submissions served in order.

Behaviour of the code worth stating outright:

- Equal severities are served in patient-id string order, not in submission
  order. For example, "102" is served before "103" whichever was submitted
  first, and "101" is served before "99".
- The form rejects only the empty patient id. A blank id such as `" "` is
  accepted.
- `add_alert` itself accepts any severity. The form restricts it to the choices
  1, 2 and 3; there is no `InvalidSeverity` error path.

Every step keeps the event set exactly when an alert is pending
(`FlagTracksQueue`). That is stronger than "pending alert implies event set".
So in the model, the display's check that the event is clear before it prints
"No pending alerts" (`Problem3.py:41`) never fails: an empty queue is always
reported (`ReportEmptyQueue`).

## Model

| member | source | states |
|---|---|---|
| `AlertOrder.StrLe` | Problem3.py:37 | Python's `str` `<=`: the first differing code point decides, and a prefix, the string itself included, comes first |
| `AlertOrder.AlertLe` | Problem3.py:14 | Python's `(severity, patient_id)` `<=`, used by `heappush`, `heappop` and `sorted`: the tuples are equal, or at the first field where they differ the left one is strictly smaller |
| `AlertOrder.StrLeFirstDifference` | Problem3.py:37 | when two patient ids agree up to a position and differ there, that code point alone decides their order |
| `AlertOrder.AlertLeTotal` | Problem3.py:14 | any two `(severity, patient_id)` tuples are comparable |
| `AlertOrder.AlertLeAntisym` | Problem3.py:14 | two tuples each no greater than the other are the same tuple |
| `AlertOrder.AlertLeTrans` | Problem3.py:14 | the tuple order is transitive |
| `AlertOrder.MinimumUnique` | Problem3.py:23 | the pending alerts alone determine which alert is served next |
| `AlertOrder.EqualSeverityServedByPatientId` | Problem3.py:23 | among pending alerts of equal severity, the one whose patient id is larger as a string is never served first |
| `AlertOrder.ServedInOrder` | Problem3.py:22-23 | two handler pops with no push in between return alerts in ascending order |
| `IcuMonitor.ServeTwiceInOrder` | Problem3.py:20-28 | two handler passes over a queue of at least two alerts, with no submission in between, serve them in ascending order |
| `IcuMonitor.ReportEmptyQueue` | Problem3.py:34-42 | while the event tracks the queue, a display pass over an empty queue shows "No pending alerts" |
| `AlertOrder.Insert` | Problem3.py:37 | inserting into an ascending list keeps it ascending and adds exactly that alert |
| `AlertOrder.SortAlerts` | Problem3.py:37 | `sorted(icu_alert_queue)` is ascending and a permutation of the queue |
| `AlertOrder.SortedUnique` | Problem3.py:37 | an ascending permutation of the queue is unique, so it is exactly what `sorted` returns |
| `BinaryHeap.RootLeAll` | Problem3.py:23 | in a heap, every element is no smaller than the root |
| `BinaryHeap.RootIsMinimum` | Problem3.py:23 | the root of a non-empty heap is the least pending alert |
| `BinaryHeap.SiftUpStep` | Problem3.py:14 | one sift-up exchange moves the single break in heap order up to the parent |
| `BinaryHeap.SiftDownStep` | Problem3.py:23 | one sift-down exchange with the smaller child moves the break in heap order down to that child |
| `BinaryHeap.SmallerChild` | Problem3.py:23 | picks a child no greater than any child of the node |
| `BinaryHeap.LastToRoot` | Problem3.py:23 | moving the last element to the root removes exactly the old root and breaks heap order only below the root |
| `BinaryHeap.SiftDownDone` | Problem3.py:23 | a node no greater than its smaller child restores heap order |
| `BinaryHeap.HeapPush` | Problem3.py:14 | `heappush` keeps heap order and adds exactly the new alert to the multiset, duplicates kept |
| `BinaryHeap.HeapPop` | Problem3.py:23 | `heappop` returns the least alert, removes exactly that one, and keeps heap order |
| `IcuMonitor.AlertMonitor.constructor` | Problem3.py:7-9 | the program starts with an empty queue and the event clear, and with the empty history that Problem3.py:54-55 creates |
| `IcuMonitor.AlertMonitor.AddAlert` | Problem3.py:12-15 | the queue grows by exactly the tuple; the event is set whatever it was; the history is unchanged |
| `IcuMonitor.AlertMonitor.HandleAlert` | Problem3.py:20-28 | on an empty queue, the queue and history are unchanged; otherwise the least alert is removed and "processing" then "finished" are appended, naming that patient; the event is clear exactly when the queue is empty |
| `IcuMonitor.AlertMonitor.DisplayQueue` | Problem3.py:34-42 | the listing is exactly the pending alerts in ascending order; "No pending alerts" is shown exactly when the queue is empty and the event is clear; nothing changes |
| `IcuMonitor.AlertMonitor.SubmitForm` | Problem3.py:67-72 | an empty patient id changes nothing; otherwise exactly one `add_alert` with a severity from 1, 2, 3, then one "alert added" message; the event invariants are kept |
| `IcuMonitor.ExampleMinima` | Problem3.py:14 | with "101" Moderate and "102", "103" Critical pending, "102" is least; after it, "103" is least |
| `IcuMonitor.SubmitExample` | Problem3.py:67-72 | submitting "101"/2, "102"/1, "103"/1 leaves those three alerts pending and the event set |
| `IcuMonitor.ServeKnownLeast` | Problem3.py:20-28 | a handler pass serves the least pending alert |
| `IcuMonitor.ServeOrderExample` | Problem3.py:20-28 | those three alerts are served in the order "102", "103", "101" |

## Left out

- Threads, `queue_lock`, the daemon thread start-up and the blocking `new_alert_event.wait()` (Problem3.py:8-9, 20, 79-84). Each locked region is one atomic step, and no interleavings are modelled. The handler pass requires the event to be set instead of waiting for it.
- `time.sleep` and the endless `while True` loops (Problem3.py:19, 25, 32-33, 87-88). Only single passes are modelled, and timing is not.
- The Streamlit interface: title, description, form widgets, severity labels, `st.empty()`, `st.error` and the rendering of messages (Problem3.py:45-65, 74-76). The form is modelled as one press of "Add Alert" with its patient id and chosen severity. The error shown for an empty id is modelled only as the `false` result of `SubmitForm`.
- IcuMonitor.AlertMonitor.SubmitForm: Problem3.py:69-70 are one atomic step here. In the program, the "alert added" append at line 70 runs after `add_alert` has released the lock and takes no lock itself. So the program's history can hold orders the model rules out: the handler's "processing" and "finished" for the new patient before its "alert added", or an "alert added" between another patient's "processing" and "finished", since the handler sleeps at line 25 while holding the lock.
- Message wording and emoji. A message is a tagged record of its kind, patient id and, where the text shows it, severity. The queue listing is the ascending sequence of alerts rather than its text.
- BinaryHeap.HeapPush: states heap order and the multiset of alerts, not the exact list layout `heapq.heappush` produces, because that layout is a library detail.
- BinaryHeap.HeapPop: states that the least alert is returned and removed and heap order is kept, not the exact list layout `heapq.heappop` leaves, for the same reason.
