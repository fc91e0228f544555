/** `NotificationManager`: a fixed container of alert elements. `show`
    appends a sanitised alert and arms a 5000 ms timer that hides it; `hide`
    starts the slide-out animation and arms a 300 ms timer that detaches the
    element. Timers are explicit here: their expiry is an event the page's
    event loop delivers (AutoHideElapsed, RemoveElapsed), and the pending
    timers are part of the state. */
module Notifications {
  import opened Sanitizer

  /** One alert element: a number standing for the element, the message it
      was shown with, its `alert-*` class and whether it is sliding out. */
  datatype Entry = Entry(id: nat, message: string, alertClass: string, fading: bool)

  /** The markup of an alert's message: the message as `sanitizeInput`
      escapes it, so it shows as text and never as elements. */
  function Markup(e: Entry): (r: string)
    ensures Unescape(r) == e.message
    ensures forall k :: 0 <= k < |r| ==> r[k] != '<' && r[k] != '>'
  {
    UnescapeSanitize(e.message);
    SanitizeHasNoAngleBrackets(e.message);
    Sanitize(e.message)
  }

  /** The class `show` gives an alert of a type. */
  function AlertClass(kind: string): string {
    if kind == "error" then "alert-danger" else "alert-" + kind
  }

  /** Two types share a class only when they are `error` and `danger`. */
  lemma AlertClassInjective(a: string, b: string)
    requires a != b
    requires !(a == "error" && b == "danger") && !(a == "danger" && b == "error")
    ensures AlertClass(a) != AlertClass(b)
  {
    if a != "error" && b != "error" {
      assert ("alert-" + a)[6..] == a && ("alert-" + b)[6..] == b;
    } else if a == "error" {
      assert ("alert-" + b)[6..] == b;
    } else {
      assert ("alert-" + a)[6..] == a;
    }
  }

  /** The ids of the alerts are increasing in display order. */
  predicate IdsIncreasing(entries: seq<Entry>) {
    forall i, j :: 0 <= i < j < |entries| ==> entries[i].id < entries[j].id
  }

  predicate HasEntry(entries: seq<Entry>, id: nat) {
    exists k :: 0 <= k < |entries| && entries[k].id == id
  }

  /** The alerts after the one with this id has started sliding out. */
  function Faded(entries: seq<Entry>, id: nat): seq<Entry> {
    seq(|entries|, i requires 0 <= i < |entries| =>
      if entries[i].id == id then entries[i].(fading := true) else entries[i])
  }

  /** Sliding out changes nothing but the one alert's `fading` flag: every
      alert stays in place with its id and message, and exactly the alert
      with this id, and those already fading, are fading afterwards. */
  lemma FadedMarks(entries: seq<Entry>, id: nat)
    ensures |Faded(entries, id)| == |entries|
    ensures forall k :: 0 <= k < |entries| ==>
              && Faded(entries, id)[k].id == entries[k].id
              && Faded(entries, id)[k].message == entries[k].message
              && Faded(entries, id)[k].alertClass == entries[k].alertClass
              && (Faded(entries, id)[k].fading <==> entries[k].fading || entries[k].id == id)
  {
  }

  /** The alerts after `remove()` of the element with this id; removing an
      element that is no longer attached does nothing. */
  function Without(entries: seq<Entry>, id: nat): seq<Entry>
    decreases |entries|
  {
    if entries == [] then []
    else if entries[0].id == id then Without(entries[1..], id)
    else [entries[0]] + Without(entries[1..], id)
  }

  /** Removing an absent alert leaves the container as it is. */
  lemma {:induction false} WithoutAbsent(entries: seq<Entry>, id: nat)
    requires !HasEntry(entries, id)
    ensures Without(entries, id) == entries
    decreases |entries|
  {
    if entries != [] {
      WithoutAbsent(entries[1..], id);
    }
  }

  /** Removing the alert at position k takes out that one alert and keeps
      every other alert and their order. */
  lemma {:induction false} WithoutAt(entries: seq<Entry>, k: nat)
    requires IdsIncreasing(entries) && k < |entries|
    ensures Without(entries, entries[k].id) == entries[..k] + entries[k + 1..]
    decreases |entries|
  {
    var id := entries[k].id;
    if k == 0 {
      WithoutAbsent(entries[1..], id);
    } else {
      assert entries[1..][k - 1] == entries[k];
      WithoutAt(entries[1..], k - 1);
      assert entries[0].id != id;
      assert entries[1..][..k - 1] == entries[1..k];
      assert entries[..k] == [entries[0]] + entries[1..k];
      assert entries[1..][k..] == entries[k + 1..];
    }
  }

  /** Once removed, an alert stays removed: a second `remove()` changes nothing. */
  lemma {:induction false} WithoutTwice(entries: seq<Entry>, id: nat)
    ensures !HasEntry(Without(entries, id), id)
    ensures Without(Without(entries, id), id) == Without(entries, id)
    decreases |entries|
  {
    if entries != [] {
      WithoutTwice(entries[1..], id);
      var rest := Without(entries[1..], id);
      if entries[0].id != id {
        assert ([entries[0]] + rest)[1..] == rest;
      }
      WithoutAbsent(Without(entries, id), id);
    }
  }

  class NotificationCenter {
    /** The alerts in the container, in display order. */
    var entries: seq<Entry>
    /** The number the next alert gets. */
    var nextId: nat
    /** The alerts whose 5000 ms timer has not fired yet. */
    var pendingHides: set<nat>
    /** The 300 ms removal timers not fired yet, one per `hide` call. */
    var pendingRemovals: multiset<nat>

    ghost predicate Valid()
      reads this
    {
      && IdsIncreasing(entries)
      && (forall k :: 0 <= k < |entries| ==>
            entries[k].id < nextId && (entries[k].id in pendingRemovals ==> entries[k].fading))
      && (forall id :: id in pendingHides ==> id < nextId)
      && (forall id :: id in pendingRemovals ==> id < nextId)
    }

    /** `createContainer`: an empty container. */
    constructor ()
      ensures Valid()
      ensures entries == [] && nextId == 0 && pendingHides == {} && pendingRemovals == multiset{}
    {
      entries, nextId := [], 0;
      pendingHides, pendingRemovals := {}, multiset{};
    }

    /** `show`: append one alert with the message, whose markup is the
        sanitised message (Markup), and the type's class, and arm its hide
        timer. */
    method Show(message: string, kind: string := "info") returns (id: nat)
      requires Valid()
      modifies this
      ensures Valid()
      ensures id == old(nextId) && nextId == old(nextId) + 1
      ensures entries == old(entries) + [Entry(id, message, AlertClass(kind), false)]
      ensures pendingHides == old(pendingHides) + {id}
      ensures pendingRemovals == old(pendingRemovals)
    {
      id := nextId;
      entries := entries + [Entry(id, message, AlertClass(kind), false)];
      nextId := nextId + 1;
      pendingHides := pendingHides + {id};
    }

    /** `hide`: start the slide-out of the alert and arm its removal timer.
        The element may already be detached; then only the timer is armed. */
    method Hide(id: nat)
      requires Valid() && id < nextId
      modifies this
      ensures Valid()
      ensures entries == Faded(old(entries), id)
      ensures pendingRemovals == old(pendingRemovals) + multiset{id}
      ensures nextId == old(nextId) && pendingHides == old(pendingHides)
    {
      entries := Faded(entries, id);
      pendingRemovals := pendingRemovals + multiset{id};
    }

    /** The 5000 ms timer of an alert fires. */
    method AutoHideElapsed(id: nat)
      requires Valid() && id in pendingHides
      modifies this
      ensures Valid()
      ensures entries == Faded(old(entries), id)
      ensures pendingHides == old(pendingHides) - {id}
      ensures pendingRemovals == old(pendingRemovals) + multiset{id}
      ensures nextId == old(nextId)
    {
      pendingHides := pendingHides - {id};
      Hide(id);
    }

    /** The close button of an attached alert is clicked. */
    method CloseClicked(id: nat)
      requires Valid() && HasEntry(entries, id)
      modifies this
      ensures Valid()
      ensures entries == Faded(old(entries), id)
      ensures pendingRemovals == old(pendingRemovals) + multiset{id}
      ensures nextId == old(nextId) && pendingHides == old(pendingHides)
    {
      var k :| 0 <= k < |entries| && entries[k].id == id;
      Hide(id);
    }

    /** A 300 ms removal timer fires and detaches its alert, if still
        attached; only an alert that has started sliding out is detached. */
    method RemoveElapsed(id: nat)
      requires Valid() && id in pendingRemovals
      modifies this
      ensures Valid()
      ensures entries == Without(old(entries), id)
      ensures forall e :: e in old(entries) && e !in entries ==> e.id == id && e.fading
      ensures pendingRemovals == old(pendingRemovals) - multiset{id}
      ensures nextId == old(nextId) && pendingHides == old(pendingHides)
    {
      WithoutFading(entries, id, nextId, pendingRemovals);
      entries := Without(entries, id);
      pendingRemovals := pendingRemovals - multiset{id};
    }
  }

  /** The alerts left after a removal are exactly those with another id. */
  lemma {:induction false} WithoutMembers(entries: seq<Entry>, id: nat)
    ensures forall e :: e in Without(entries, id) <==> e in entries && e.id != id
    decreases |entries|
  {
    if entries != [] {
      WithoutMembers(entries[1..], id);
      assert forall e :: e in entries <==> e == entries[0] || e in entries[1..];
    }
  }

  /** Removal keeps the ids increasing. */
  lemma {:induction false} WithoutIncreasing(entries: seq<Entry>, id: nat)
    requires IdsIncreasing(entries)
    ensures IdsIncreasing(Without(entries, id))
    decreases |entries|
  {
    if entries != [] {
      WithoutIncreasing(entries[1..], id);
      WithoutMembers(entries[1..], id);
      var rest := Without(entries[1..], id);
      if entries[0].id != id {
        forall j | 0 <= j < |rest| ensures entries[0].id < rest[j].id {
          assert rest[j] in entries[1..];
        }
      }
    }
  }

  /** Removal keeps a subsequence: the ids stay increasing, and the alerts
      left are exactly those with another id. */
  lemma WithoutKeeps(entries: seq<Entry>, id: nat)
    requires IdsIncreasing(entries)
    ensures IdsIncreasing(Without(entries, id))
    ensures forall e :: e in Without(entries, id) <==> e in entries && e.id != id
  {
    WithoutIncreasing(entries, id);
    WithoutMembers(entries, id);
  }

  /** Detaching a fading alert keeps the container's invariant on the
      entries, and what it drops had started fading. */
  lemma WithoutFading(entries: seq<Entry>, id: nat, nextId: nat, removals: multiset<nat>)
    requires IdsIncreasing(entries) && id in removals
    requires forall k :: 0 <= k < |entries| ==>
               entries[k].id < nextId && (entries[k].id in removals ==> entries[k].fading)
    ensures IdsIncreasing(Without(entries, id))
    ensures forall k :: 0 <= k < |Without(entries, id)| ==>
              Without(entries, id)[k].id < nextId
              && (Without(entries, id)[k].id in removals - multiset{id} ==> Without(entries, id)[k].fading)
    ensures forall e :: e in entries && e !in Without(entries, id) ==> e.id == id && e.fading
  {
    WithoutKeeps(entries, id);
    var rest := Without(entries, id);
    forall k | 0 <= k < |rest|
      ensures rest[k].id < nextId && (rest[k].id in removals - multiset{id} ==> rest[k].fading)
    {
      assert rest[k] in entries;
      var j :| 0 <= j < |entries| && entries[j] == rest[k];
    }
    forall e | e in entries && e !in rest ensures e.id == id && e.fading {
      var j :| 0 <= j < |entries| && entries[j] == e;
    }
  }
}
