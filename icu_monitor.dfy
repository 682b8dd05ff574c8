/** The ICU alert monitor: the pending-alert heap `icu_alert_queue`, the
    "new alert" event `new_alert_event` and the message history
    `alert_messages`, with the steps that change them, each taken as one atomic
    transition. Pushing an alert, one pass of the alert handler and one pass of
    the queue display each run while holding `queue_lock`. One submission of
    the input form calls the locked push and then appends to the history
    without the lock; here the two together are one step. */
module IcuMonitor {
  import opened AlertOrder
  import opened BinaryHeap

  datatype Option<T> = None | Some(value: T)

  /** A line of the alert history; the exact wording and emoji are not modelled. */
  datatype Message =
    | AlertAdded(patientId: string, severity: int)
    | ProcessingStarted(patientId: string, severity: int)
    | ProcessingFinished(patientId: string)

  /** What one pass of the queue display shows. */
  datatype QueueView =
    | Listing(alerts: seq<Alert>)  // "Current Alerts in Queue", one line per alert
    | NoPendingAlerts              // "No pending alerts."
    | Unchanged                    // the queue is empty but the event is set: nothing is written

  /** The severities the input form offers: Critical, Moderate, Non-Critical. */
  const SeverityChoices: seq<int> := [1, 2, 3]

  class AlertMonitor {
    var queue: seq<Alert>
    var newAlert: bool
    var messages: seq<Message>

    /** The pending alerts are kept in heap order. */
    ghost predicate Valid()
      reads this
    {
      IsHeap(queue)
    }

    /** The event is set whenever an alert is pending, so the handler never
        sleeps while there is work. */
    ghost predicate Signalled()
      reads this
    {
      queue != [] ==> newAlert
    }

    /** The stronger invariant every step re-establishes: the event is set
        exactly when an alert is pending. */
    ghost predicate FlagTracksQueue()
      reads this
    {
      newAlert <==> queue != []
    }

    /** Program start: no pending alerts, the event clear, an empty history. */
    constructor ()
      ensures Valid() && Signalled() && FlagTracksQueue()
      ensures queue == [] && !newAlert && messages == []
    {
      queue := [];
      newAlert := false;
      messages := [];
    }

    /** `add_alert`: push `(severity_level, patient_id)` and set the event. */
    method AddAlert(patientId: string, severity: int)
      requires Valid()
      modifies this
      ensures Valid()
      ensures multiset(queue) == multiset(old(queue)) + multiset{Alert(severity, patientId)}
      ensures newAlert
      ensures Signalled() && FlagTracksQueue()
      ensures messages == old(messages)
    {
      queue := HeapPush(queue, Alert(severity, patientId));
      newAlert := true;
    }

    /** One pass of `handle_alerts`, entered once the event is set: serve the
        least pending alert, if any, then clear the event if nothing is left. */
    method HandleAlert() returns (served: Option<Alert>)
      requires Valid() && newAlert
      modifies this
      ensures Valid()
      ensures old(queue) == [] ==>
        served == None && queue == old(queue) && messages == old(messages)
      ensures old(queue) != [] ==>
        && served.Some?
        && IsMinimum(served.value, multiset(old(queue)))
        && multiset(queue) == multiset(old(queue)) - multiset{served.value}
        && messages == old(messages) + [ProcessingStarted(served.value.patientId, served.value.severity),
                                        ProcessingFinished(served.value.patientId)]
      ensures newAlert <==> queue != []
      ensures Signalled() && FlagTracksQueue()
    {
      served := None;
      if queue != [] {
        var alert, rest := HeapPop(queue);
        queue := rest;
        messages := messages + [ProcessingStarted(alert.patientId, alert.severity)];
        messages := messages + [ProcessingFinished(alert.patientId)];
        served := Some(alert);
      }
      if queue == [] {
        newAlert := false;
      }
    }

    /** One pass of `display_alert_queue`: list the pending alerts in
        ascending order, or report that none are pending. Changes nothing. */
    method DisplayQueue() returns (view: QueueView)
      ensures view.Listing? <==> queue != []
      ensures view.Listing? ==> Sorted(view.alerts) && multiset(view.alerts) == multiset(queue)
      ensures view.NoPendingAlerts? <==> queue == [] && !newAlert
    {
      if queue != [] {
        var ascending := SortAlerts(queue);
        var listed: seq<Alert> := [];
        for i := 0 to |ascending|
          invariant listed == ascending[..i]
        {
          listed := listed + [ascending[i]];
        }
        assert ascending[..|ascending|] == ascending;
        view := Listing(listed);
      } else if !newAlert {
        view := NoPendingAlerts;
      } else {
        view := Unchanged;
      }
    }

    /** A press of "Add Alert": a non-empty patient id adds the alert and
        records it in the history; an empty one only shows an error. */
    method SubmitForm(patientId: string, severity: int) returns (added: bool)
      requires Valid()
      requires severity in SeverityChoices
      modifies this
      ensures Valid()
      ensures added <==> patientId != []
      ensures added ==>
        && multiset(queue) == multiset(old(queue)) + multiset{Alert(severity, patientId)}
        && newAlert
        && messages == old(messages) + [AlertAdded(patientId, severity)]
      ensures !added ==>
        queue == old(queue) && newAlert == old(newAlert) && messages == old(messages)
      ensures old(Signalled()) ==> Signalled()
      ensures old(FlagTracksQueue()) ==> FlagTracksQueue()
    {
      added := patientId != [];
      if added {
        AddAlert(patientId, severity);
        messages := messages + [AlertAdded(patientId, severity)];
      }
    }
  }

  /** Among the alerts of the example below, "102" comes first and "103" second:
      both are Critical, and "102" < "103" as strings. */
  lemma ExampleMinima()
    ensures IsMinimum(Alert(1, "102"), multiset{Alert(2, "101"), Alert(1, "102"), Alert(1, "103")})
    ensures IsMinimum(Alert(1, "103"), multiset{Alert(2, "101"), Alert(1, "103")})
  {
  }

  /** Patients "101" (Moderate), "102" (Critical) and "103" (Critical) are
      submitted through the form, in that order. */
  method SubmitExample() returns (monitor: AlertMonitor)
    ensures fresh(monitor) && monitor.Valid() && monitor.newAlert
    ensures multiset(monitor.queue) == multiset{Alert(2, "101"), Alert(1, "102"), Alert(1, "103")}
  {
    monitor := new AlertMonitor();
    var added := monitor.SubmitForm("101", 2);
    added := monitor.SubmitForm("102", 1);
    added := monitor.SubmitForm("103", 1);
  }

  /** One handler pass when the least pending alert `least` is known: it is
      the one served. */
  method ServeKnownLeast(monitor: AlertMonitor, ghost least: Alert) returns (patientId: string)
    requires monitor.Valid() && monitor.newAlert
    requires IsMinimum(least, multiset(monitor.queue))
    modifies monitor
    ensures monitor.Valid() && (monitor.newAlert <==> monitor.queue != [])
    ensures patientId == least.patientId
    ensures multiset(monitor.queue) == multiset(old(monitor.queue)) - multiset{least}
  {
    var served := monitor.HandleAlert();
    MinimumUnique(served.value, least, multiset(old(monitor.queue)));
    patientId := served.value.patientId;
  }

  /** Two handler passes with no submission in between serve their alerts in
      ascending order. */
  method ServeTwiceInOrder(monitor: AlertMonitor) returns (first: Alert, second: Alert)
    requires monitor.Valid() && monitor.newAlert && |monitor.queue| >= 2
    modifies monitor
    ensures AlertLe(first, second)
    ensures monitor.Valid() && (monitor.newAlert <==> monitor.queue != [])
  {
    var q0 := multiset(monitor.queue);
    var served := monitor.HandleAlert();
    first := served.value;
    assert |multiset(monitor.queue)| == |q0| - 1;
    assert monitor.queue != [];
    served := monitor.HandleAlert();
    second := served.value;
    ServedInOrder(first, second, q0);
  }

  /** With the event kept exactly in step with the queue, a display pass over
      an empty queue always reports "No pending alerts". */
  method ReportEmptyQueue(monitor: AlertMonitor) returns (view: QueueView)
    requires monitor.FlagTracksQueue() && monitor.queue == []
    ensures view == NoPendingAlerts
  {
    view := monitor.DisplayQueue();
  }

  /** After the submissions above the handler runs three times: both Critical
      alerts are served before the Moderate one, "102" before "103". */
  method ServeOrderExample() returns (order: seq<string>)
    ensures order == ["102", "103", "101"]
  {
    var a101, a102, a103 := Alert(2, "101"), Alert(1, "102"), Alert(1, "103");
    ExampleMinima();
    var monitor := SubmitExample();
    var first := ServeKnownLeast(monitor, a102);
    assert multiset(monitor.queue) == multiset{a101, a103};
    var second := ServeKnownLeast(monitor, a103);
    assert multiset(monitor.queue) == multiset{a101};
    AlertLeRefl(a101);
    var third := ServeKnownLeast(monitor, a101);
    order := [first, second, third];
  }
}
