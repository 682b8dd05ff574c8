/** Alerts and the order the ICU queue serves them in.

    An alert is the tuple (severity_level, patient_id) pushed onto the queue.
    Python compares such tuples lexicographically: the integer severity first,
    then the patient id as a string, code point by code point, a proper prefix
    coming first. Lower values are served first. */
module AlertOrder {

  datatype Alert = Alert(severity: int, patientId: string)

  /** Python's `a <= b` on two `str` values: the first differing code point
      decides, and a prefix (the string itself included) comes first. */
  predicate StrLe(a: string, b: string)
    ensures a <= b ==> StrLe(a, b)
  {
    if a == [] then true
    else if b == [] then false
    else if a[0] != b[0] then a[0] < b[0]
    else StrLe(a[1..], b[1..])
  }

  /** Python's `a < b` on two `str` values. */
  predicate StrLt(a: string, b: string)
  {
    StrLe(a, b) && a != b
  }

  /** Python's `x <= y` on two `(severity_level, patient_id)` tuples: the
      tuples are equal, or at the first field where they differ the field of
      `x` is strictly smaller. */
  predicate AlertLe(x: Alert, y: Alert)
    ensures AlertLe(x, y) <==>
      x == y || x.severity < y.severity || (x.severity == y.severity && StrLt(x.patientId, y.patientId))
  {
    x.severity < y.severity || (x.severity == y.severity && StrLe(x.patientId, y.patientId))
  }

  /** The first code point where two strings differ decides their order,
      whatever follows it. */
  lemma {:induction false} StrLeFirstDifference(a: string, b: string, k: nat)
    requires k < |a| && k < |b| && a[..k] == b[..k] && a[k] != b[k]
    ensures StrLe(a, b) <==> a[k] < b[k]
    decreases k
  {
    if 0 < k {
      assert a[0] == a[..k][0] == b[..k][0] == b[0];
      assert a[1..][..k - 1] == a[..k][1..] == b[..k][1..] == b[1..][..k - 1];
      StrLeFirstDifference(a[1..], b[1..], k - 1);
    }
  }

  lemma StrLeRefl(a: string)
    ensures StrLe(a, a)
  {
  }

  lemma {:induction false} StrLeTotal(a: string, b: string)
    ensures StrLe(a, b) || StrLe(b, a)
    decreases |a|
  {
    if a != [] && b != [] && a[0] == b[0] {
      StrLeTotal(a[1..], b[1..]);
    }
  }

  lemma {:induction false} StrLeAntisym(a: string, b: string)
    requires StrLe(a, b) && StrLe(b, a)
    ensures a == b
    decreases |a|
  {
    if a != [] {
      assert b != [] && a[0] == b[0];
      StrLeAntisym(a[1..], b[1..]);
      assert a == [a[0]] + a[1..] && b == [b[0]] + b[1..];
    }
  }

  lemma {:induction false} StrLeTrans(a: string, b: string, c: string)
    requires StrLe(a, b) && StrLe(b, c)
    ensures StrLe(a, c)
    decreases |a|
  {
    if a != [] && a[0] == b[0] && b[0] == c[0] {
      StrLeTrans(a[1..], b[1..], c[1..]);
    }
  }

  /** Any two alerts are comparable: the queue order is total. */
  lemma AlertLeTotal(x: Alert, y: Alert)
    ensures AlertLe(x, y) || AlertLe(y, x)
  {
    StrLeTotal(x.patientId, y.patientId);
  }

  /** Two alerts that are each no greater than the other are the same tuple. */
  lemma AlertLeAntisym(x: Alert, y: Alert)
    requires AlertLe(x, y) && AlertLe(y, x)
    ensures x == y
  {
    StrLeAntisym(x.patientId, y.patientId);
  }

  lemma AlertLeTrans(x: Alert, y: Alert, z: Alert)
    requires AlertLe(x, y) && AlertLe(y, z)
    ensures AlertLe(x, z)
  {
    if x.severity == y.severity == z.severity {
      StrLeTrans(x.patientId, y.patientId, z.patientId);
    }
  }

  lemma AlertLeRefl(x: Alert)
    ensures AlertLe(x, x)
  {
  }

  /** `x` is the alert the queue must hand out next: present, and no greater than any pending alert. */
  ghost predicate IsMinimum(x: Alert, q: multiset<Alert>)
  {
    x in q && forall y :: y in q ==> AlertLe(x, y)
  }

  /** The alert served next is determined by the pending alerts alone. */
  lemma MinimumUnique(x: Alert, y: Alert, q: multiset<Alert>)
    requires IsMinimum(x, q) && IsMinimum(y, q)
    ensures x == y
  {
    AlertLeAntisym(x, y);
  }

  /** Among equal severities the patient id that is smaller as a string is
      served first, whatever order the alerts were submitted in. */
  lemma EqualSeverityServedByPatientId(x: Alert, q: multiset<Alert>, a: Alert, b: Alert)
    requires IsMinimum(x, q) && a in q && b in q
    requires a.severity == b.severity && StrLt(a.patientId, b.patientId)
    ensures x != b
  {
    if x == b {
      assert AlertLe(b, a);
      StrLeAntisym(a.patientId, b.patientId);
    }
  }

  /** Two passes of the handler with no submission in between serve their
      alerts in ascending order. */
  lemma ServedInOrder(x: Alert, y: Alert, q: multiset<Alert>)
    requires IsMinimum(x, q) && IsMinimum(y, q - multiset{x})
    ensures AlertLe(x, y)
  {
  }

  /** Ascending order, as Python's `sorted` produces it. */
  ghost predicate Sorted(s: seq<Alert>)
  {
    forall i, j :: 0 <= i < j < |s| ==> AlertLe(s[i], s[j])
  }

  /** Insert `x` into the ascending sequence `s`. */
  function Insert(x: Alert, s: seq<Alert>): (r: seq<Alert>)
    requires Sorted(s)
    ensures Sorted(r)
    ensures multiset(r) == multiset(s) + multiset{x}
  {
    if s == [] then [x]
    else if AlertLe(x, s[0]) then
      assert forall j :: 0 < j < |s| ==> AlertLe(x, s[j]) by {
        forall j | 0 < j < |s| ensures AlertLe(x, s[j]) {
          AlertLeTrans(x, s[0], s[j]);
        }
      }
      [x] + s
    else
      AlertLeTotal(x, s[0]);
      var rest := Insert(x, s[1..]);
      InsertBehindHead(x, s, rest);
      [s[0]] + rest
  }

  /** The head of an ascending sequence stays in front when a larger alert is
      inserted into its tail. */
  lemma InsertBehindHead(x: Alert, s: seq<Alert>, rest: seq<Alert>)
    requires Sorted(s) && s != [] && AlertLe(s[0], x)
    requires Sorted(rest) && multiset(rest) == multiset(s[1..]) + multiset{x}
    ensures Sorted([s[0]] + rest)
    ensures multiset([s[0]] + rest) == multiset(s) + multiset{x}
  {
    assert s == [s[0]] + s[1..];
    forall k | 0 <= k < |rest| ensures AlertLe(s[0], rest[k]) {
      assert rest[k] in multiset(rest);
      if rest[k] != x {
        assert rest[k] in multiset(s[1..]);
        var j :| 0 <= j < |s[1..]| && s[1..][j] == rest[k];
        assert s[j + 1] == rest[k];
      }
    }
    var r := [s[0]] + rest;
    forall i, j | 0 <= i < j < |r| ensures AlertLe(r[i], r[j]) {
      if i > 0 {
        assert r[i] == rest[i - 1] && r[j] == rest[j - 1];
      }
    }
  }

  /** Python's `sorted(queue)`: the pending alerts in ascending order. */
  function SortAlerts(s: seq<Alert>): (r: seq<Alert>)
    ensures Sorted(r)
    ensures multiset(r) == multiset(s)
  {
    if s == [] then []
    else
      assert s == [s[0]] + s[1..];
      Insert(s[0], SortAlerts(s[1..]))
  }

  /** There is only one ascending arrangement of a collection of alerts, so
      any sorted permutation of the queue is exactly what `sorted` returns. */
  lemma {:induction false} SortedUnique(a: seq<Alert>, b: seq<Alert>)
    requires Sorted(a) && Sorted(b)
    requires multiset(a) == multiset(b)
    ensures a == b
    decreases |a|
  {
    if a != [] {
      assert |b| == |multiset(b)| == |multiset(a)| == |a|;
      SortedHeadsAgree(a, b);
      SortedTail(a);
      SortedTail(b);
      SortedUnique(a[1..], b[1..]);
      assert a == [a[0]] + a[1..] && b == [b[0]] + b[1..];
    }
  }

  /** Two ascending arrangements of the same alerts start with the same one. */
  lemma SortedHeadsAgree(a: seq<Alert>, b: seq<Alert>)
    requires Sorted(a) && Sorted(b) && a != [] && b != []
    requires multiset(a) == multiset(b)
    ensures a[0] == b[0]
    ensures multiset(a[1..]) == multiset(b[1..])
  {
    assert a[0] in multiset(b) && b[0] in multiset(a);
    var i :| 0 <= i < |b| && b[i] == a[0];
    var j :| 0 <= j < |a| && a[j] == b[0];
    if i > 0 { assert AlertLe(b[0], b[i]); } else { AlertLeRefl(b[0]); }
    if j > 0 { assert AlertLe(a[0], a[j]); } else { AlertLeRefl(a[0]); }
    AlertLeAntisym(a[0], b[0]);
    MultisetTail(a);
    MultisetTail(b);
  }

  /** The alerts after the first are all of them but one copy of the first. */
  lemma MultisetTail(a: seq<Alert>)
    requires a != []
    ensures multiset(a[1..]) == multiset(a) - multiset{a[0]}
  {
    assert a == [a[0]] + a[1..];
    assert multiset(a) == multiset{a[0]} + multiset(a[1..]);
  }

  /** Dropping the first alert keeps a sequence ascending. */
  lemma SortedTail(a: seq<Alert>)
    requires Sorted(a) && a != []
    ensures Sorted(a[1..])
  {
  }
}
