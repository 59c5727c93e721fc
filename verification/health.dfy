/**
 * The health registry: a name-keyed table of service health, paired with the
 * set of names that have a live background probe task.
 *
 * Probes are reduced to an abstract outcome, the background ticker to an
 * explicit `Tick` step, and the unspecified iteration order of the table to an
 * `order` parameter that enumerates its keys.
 */
module Health {
  import opened Wrappers
  import Text

  datatype ServiceStatus = Serving | NotServing

  datatype ServiceHealth = ServiceHealth(status: ServiceStatus, message: Option<string>)

  /** How one run of a check function ended, before or after the probe timeout. */
  datatype ProbeOutcome =
    | Completed            // the check returned `Ok(())` in time
    | Failed(error: string) // the check returned `Err(error)` in time
    | TimedOut             // the check did not finish within the timeout

  const TimedOutMessage: string := "probe timed out"

  /** The steady-state shape of an entry: a message is present exactly when the service is not serving. */
  predicate WellFormed(h: ServiceHealth) {
    h.status == NotServing <==> h.message.Some?
  }

  /** `run_probe`: reduces a probe outcome to a status and a message; it never fails. */
  function RunProbe(outcome: ProbeOutcome): (h: ServiceHealth)
    ensures WellFormed(h)
    ensures h.status == Serving <==> outcome.Completed?
    ensures outcome.Failed? ==> h.message == Some(outcome.error)
    ensures outcome.TimedOut? ==> h.message == Some(TimedOutMessage)
  {
    match outcome
    case Completed => ServiceHealth(Serving, None)
    case Failed(err) => ServiceHealth(NotServing, Some(err))
    case TimedOut => ServiceHealth(NotServing, Some(TimedOutMessage))
  }

  /**
   * The outcome can be read back from the health it produces, except that a
   * check failing with the text "probe timed out" looks exactly like a timeout.
   */
  lemma RunProbeDistinguishesOutcomes(a: ProbeOutcome, b: ProbeOutcome)
    requires RunProbe(a) == RunProbe(b)
    ensures a == b || (a.TimedOut? && b == Failed(TimedOutMessage)) || (b.TimedOut? && a == Failed(TimedOutMessage))
  {
  }

  /** The registry's state: the health table and the names that own a background task. */
  datatype Registry = Registry(services: map<string, ServiceHealth>, tasks: set<string>)

  /** Every table entry has a live task and vice versa, and every entry is well formed. */
  ghost predicate Valid(r: Registry) {
    && r.tasks == r.services.Keys
    && forall n :: n in r.services ==> WellFormed(r.services[n])
  }

  /** Name `n` has the same entry (or the same absence) in both tables. */
  predicate EntryUnchanged(a: map<string, ServiceHealth>, b: map<string, ServiceHealth>, n: string) {
    (n !in a && n !in b) || (n in a && n in b && a[n] == b[n])
  }

  /** `HealthRegistry::new`. */
  function NewRegistry(): (r: Registry)
    ensures Valid(r)
    ensures |r.services| == 0 && |r.tasks| == 0
  {
    Registry(map[], {})
  }

  /**
   * `register`: runs the first probe synchronously, stores its result under
   * `name`, and starts a task for `name`, replacing (and aborting) any task and
   * entry that `name` already had.
   */
  function Register(r: Registry, name: string, outcome: ProbeOutcome): (r': Registry)
    ensures name in r'.services && r'.services[name] == RunProbe(outcome)
    ensures r'.services.Keys == r.services.Keys + {name}
    ensures forall n :: n != name ==> EntryUnchanged(r.services, r'.services, n)
    ensures r'.tasks == r.tasks + {name}
    ensures Valid(r) ==> Valid(r')
  {
    var initial := RunProbe(outcome);
    Registry(r.services[name := initial], r.tasks + {name})
  }

  /** `deregister`: aborts `name`'s task and removes its entry; unknown names are a no-op. */
  function Deregister(r: Registry, name: string): (r': Registry)
    ensures name !in r'.services && name !in r'.tasks
    ensures r'.services.Keys == r.services.Keys - {name}
    ensures forall n :: n != name ==> EntryUnchanged(r.services, r'.services, n)
    ensures r'.tasks == r.tasks - {name}
    ensures name !in r.services && name !in r.tasks ==> r' == r
    ensures Valid(r) ==> Valid(r')
  {
    Registry(r.services - {name}, r.tasks - {name})
  }

  /**
   * One tick of `name`'s background task: the probe result overwrites
   * `name`'s entry. A name without a live task has no ticker, so nothing happens.
   */
  function Tick(r: Registry, name: string, outcome: ProbeOutcome): (r': Registry)
    ensures name in r.tasks ==> name in r'.services && r'.services[name] == RunProbe(outcome)
    ensures name !in r.tasks ==> r' == r
    ensures forall n :: n != name ==> EntryUnchanged(r.services, r'.services, n)
    ensures r'.tasks == r.tasks
    ensures Valid(r) ==> Valid(r')
  {
    if name in r.tasks then
      var health := RunProbe(outcome);
      r.(services := r.services[name := health])
    else
      r
  }

  /** `order` lists every key of the table exactly once: one possible iteration order. */
  ghost predicate Enumerates(order: seq<string>, keys: set<string>) {
    && (forall i, j :: 0 <= i < j < |order| ==> order[i] != order[j])
    && (forall n :: n in keys <==> n in order)
  }

  /** The set of names whose entry is not serving. */
  ghost function FailingNames(services: map<string, ServiceHealth>): set<string> {
    set n | n in services && services[n].status == NotServing
  }

  /** The aggregate message's part for one failing entry: `name: message`, or the bare name. */
  function Segment(name: string, h: ServiceHealth): (seg: string)
    ensures name <= seg
    ensures seg == name <==> h.message.None?
    ensures h.message.Some? ==> seg[|name|..] == ": " + h.message.value
  {
    match h.message
    case Some(msg) => name + ": " + msg
    case None => name
  }

  /** The segments of the not-serving entries, in the order `order` visits them. */
  function Segments(services: map<string, ServiceHealth>, order: seq<string>): (segs: seq<string>)
    requires forall i :: 0 <= i < |order| ==> order[i] in services
    ensures |segs| <= |order|
    decreases |order|
  {
    if |order| == 0 then []
    else
      var n := order[0];
      var rest := Segments(services, order[1..]);
      if services[n].status == NotServing then [Segment(n, services[n])] + rest else rest
  }

  /** There are no segments exactly when every visited entry is Serving. */
  lemma {:induction false} SegmentsEmpty(services: map<string, ServiceHealth>, order: seq<string>)
    requires forall i :: 0 <= i < |order| ==> order[i] in services
    ensures |Segments(services, order)| == 0 <==> forall i :: 0 <= i < |order| ==> services[order[i]].status == Serving
    decreases |order|
  {
    if |order| > 0 {
      SegmentsEmpty(services, order[1..]);
      assert forall i :: 1 <= i < |order| ==> order[i] == order[1..][i - 1];
    }
  }

  /** Every visited failing entry contributes its segment. */
  lemma {:induction false} SegmentsCover(services: map<string, ServiceHealth>, order: seq<string>, i: nat)
    requires forall i :: 0 <= i < |order| ==> order[i] in services
    requires i < |order| && services[order[i]].status == NotServing
    ensures Segment(order[i], services[order[i]]) in Segments(services, order)
    decreases |order|
  {
    if i > 0 {
      assert order[i] == order[1..][i - 1];
      SegmentsCover(services, order[1..], i - 1);
    }
  }

  /** Every segment is the segment of some visited failing entry. */
  lemma {:induction false} SegmentsSound(services: map<string, ServiceHealth>, order: seq<string>, k: nat)
    requires forall i :: 0 <= i < |order| ==> order[i] in services
    requires k < |Segments(services, order)|
    ensures exists i :: 0 <= i < |order| && services[order[i]].status == NotServing
                        && Segments(services, order)[k] == Segment(order[i], services[order[i]])
    decreases |order|
  {
    var n := order[0];
    var rest := order[1..];
    if services[n].status == NotServing && k == 0 {
      assert Segments(services, order)[0] == Segment(order[0], services[order[0]]);
    } else {
      var k' := if services[n].status == NotServing then k - 1 else k;
      assert Segments(services, order)[k] == Segments(services, rest)[k'];
      SegmentsSound(services, rest, k');
      var i :| 0 <= i < |rest| && services[rest[i]].status == NotServing
               && Segments(services, rest)[k'] == Segment(rest[i], services[rest[i]]);
      assert rest[i] == order[i + 1];
    }
  }

  /** The names that `order` visits and whose entry is not serving. */
  ghost function FailingIn(services: map<string, ServiceHealth>, order: seq<string>): set<string> {
    set n | n in order && n in services && services[n].status == NotServing
  }

  /** Over a duplicate-free enumeration there are as many segments as failing names (the one-to-one match is `SegmentsInOrder`). */
  lemma {:induction false} SegmentsCount(services: map<string, ServiceHealth>, order: seq<string>)
    requires forall i :: 0 <= i < |order| ==> order[i] in services
    requires forall i, j :: 0 <= i < j < |order| ==> order[i] != order[j]
    ensures |Segments(services, order)| == |FailingIn(services, order)|
    decreases |order|
  {
    if |order| == 0 {
      assert FailingIn(services, order) == {};
    } else {
      var n := order[0];
      var rest := order[1..];
      SegmentsCount(services, rest);
      assert n !in rest by {
        forall i | 0 <= i < |rest| ensures rest[i] != n {
          assert rest[i] == order[i + 1];
        }
      }
      assert order == [n] + rest;
      if services[n].status == NotServing {
        assert FailingIn(services, order) == FailingIn(services, rest) + {n};
      } else {
        assert FailingIn(services, order) == FailingIn(services, rest);
      }
    }
  }

  /** Whether the entry visited at index `i` is not serving. */
  predicate FailingAt(services: map<string, ServiceHealth>, order: seq<string>, i: int)
    requires forall j :: 0 <= j < |order| ==> order[j] in services
    requires 0 <= i < |order|
  {
    services[order[i]].status == NotServing
  }

  /** The segment of the entry visited at index `i`. */
  function SegmentAt(services: map<string, ServiceHealth>, order: seq<string>, i: int): string
    requires forall j :: 0 <= j < |order| ==> order[j] in services
    requires 0 <= i < |order|
  {
    Segment(order[i], services[order[i]])
  }

  /** One step of `Segments` over the entries visited from index `i` on. */
  lemma SegmentsFrom(services: map<string, ServiceHealth>, order: seq<string>, i: int)
    requires forall j :: 0 <= j < |order| ==> order[j] in services
    requires 0 <= i < |order|
    ensures Segments(services, order[i..])
         == (if FailingAt(services, order, i) then [SegmentAt(services, order, i)] else []) + Segments(services, order[i + 1..])
  {
    assert order[i..][0] == order[i];
    assert order[i..][1..] == order[i + 1..];
  }

  /** Strictly increasing indexes, all in `[lo, hi)`. */
  ghost predicate IncreasingIn(w: seq<int>, lo: int, hi: int) {
    && (forall k :: 0 <= k < |w| ==> lo <= w[k] < hi)
    && (forall k, l :: 0 <= k < l < |w| ==> w[k] < w[l])
  }

  /** The indexes, from `i` on, of the visited entries that are not serving, in visiting order. */
  function FailingIndexes(services: map<string, ServiceHealth>, order: seq<string>, i: nat): seq<int>
    requires forall j :: 0 <= j < |order| ==> order[j] in services
    requires i <= |order|
    decreases |order| - i
  {
    if i == |order| then []
    else (if FailingAt(services, order, i) then [i] else []) + FailingIndexes(services, order, i + 1)
  }

  /** There is one failing index per segment, and the indexes increase. */
  lemma {:induction false} FailingIndexesIncreasing(services: map<string, ServiceHealth>, order: seq<string>, i: nat)
    requires forall j :: 0 <= j < |order| ==> order[j] in services
    requires i <= |order|
    ensures |FailingIndexes(services, order, i)| == |Segments(services, order[i..])|
    ensures IncreasingIn(FailingIndexes(services, order, i), i, |order|)
    decreases |order| - i
  {
    if i < |order| {
      FailingIndexesIncreasing(services, order, i + 1);
      SegmentsFrom(services, order, i);
    }
  }

  /** Segment `k` is produced by the entry at the `k`-th failing index, which is not serving. */
  lemma {:induction false} FailingIndexesProduce(services: map<string, ServiceHealth>, order: seq<string>, i: nat, k: int)
    requires forall j :: 0 <= j < |order| ==> order[j] in services
    requires i <= |order|
    requires 0 <= k < |FailingIndexes(services, order, i)|
    ensures i <= FailingIndexes(services, order, i)[k] < |order|
    ensures FailingAt(services, order, FailingIndexes(services, order, i)[k])
    ensures k < |Segments(services, order[i..])|
    ensures Segments(services, order[i..])[k] == SegmentAt(services, order, FailingIndexes(services, order, i)[k])
    decreases |order| - i
  {
    SegmentsFrom(services, order, i);
    FailingIndexesIncreasing(services, order, i + 1);
    if !(FailingAt(services, order, i) && k == 0) {
      var d := if FailingAt(services, order, i) then 1 else 0;
      FailingIndexesProduce(services, order, i + 1, k - d);
    }
  }

  /** Every failing entry's index is among the failing indexes. */
  lemma {:induction false} FailingIndexesCover(services: map<string, ServiceHealth>, order: seq<string>, i: nat, j: int)
    requires forall j :: 0 <= j < |order| ==> order[j] in services
    requires i <= j < |order| && FailingAt(services, order, j)
    ensures j in FailingIndexes(services, order, i)
    decreases |order| - i
  {
    if i < j {
      FailingIndexesCover(services, order, i + 1, j);
    }
  }

  /** Two different failing entries can produce the same segment text, so counting texts is not enough. */
  lemma SegmentTextsCanCollide()
    ensures Segment("a", ServiceHealth(NotServing, Some("b: c")))
         == Segment("a: b", ServiceHealth(NotServing, Some("c")))
  {
    assert "a" + ": " + "b: c" == "a: b" + ": " + "c";
  }

  /**
   * The segments match the visited failing entries one to one, in visiting
   * order: `w[k]` is the index in `order` of the entry that produced segment
   * `k`, the indexes strictly increase, and every failing index occurs. Two
   * entries whose segment texts coincide still contribute one segment each.
   */
  lemma SegmentsInOrder(services: map<string, ServiceHealth>, order: seq<string>)
    returns (w: seq<int>)
    requires forall i :: 0 <= i < |order| ==> order[i] in services
    ensures |w| == |Segments(services, order)|
    ensures IncreasingIn(w, 0, |order|)
    ensures forall k :: 0 <= k < |w| ==> FailingAt(services, order, w[k])
    ensures forall k :: 0 <= k < |w| ==> Segments(services, order)[k] == SegmentAt(services, order, w[k])
    ensures forall i :: 0 <= i < |order| && FailingAt(services, order, i) ==> i in w
  {
    w := FailingIndexes(services, order, 0);
    assert order[0..] == order;
    FailingIndexesIncreasing(services, order, 0);
    forall k | 0 <= k < |w|
      ensures FailingAt(services, order, w[k])
      ensures Segments(services, order)[k] == SegmentAt(services, order, w[k])
    {
      FailingIndexesProduce(services, order, 0, k);
    }
    forall i | 0 <= i < |order| && FailingAt(services, order, i)
      ensures i in w
    {
      FailingIndexesCover(services, order, 0, i);
    }
  }

  /**
   * `aggregate`: Serving with no message exactly when no entry is failing;
   * otherwise NotServing with the `"; "`-join of the failing entries' segments,
   * one per failing entry.
   */
  function Aggregate(services: map<string, ServiceHealth>, order: seq<string>): (h: ServiceHealth)
    requires Enumerates(order, services.Keys)
    ensures WellFormed(h)
    ensures h.status == Serving <==> forall n :: n in services ==> services[n].status == Serving
    ensures h.status == NotServing ==> h.message == Some(Text.Join(Segments(services, order), "; "))
    ensures |Segments(services, order)| == |FailingNames(services)|
  {
    var segs := Segments(services, order);
    SegmentsCount(services, order);
    SegmentsEmpty(services, order);
    assert FailingIn(services, order) == FailingNames(services);
    if |segs| == 0 then
      ServiceHealth(Serving, None)
    else
      ServiceHealth(NotServing, Some(Text.Join(segs, "; ")))
  }

  /** Each failing entry's `name: message` (or bare name) appears in the aggregate message. */
  lemma AggregateMentionsFailure(services: map<string, ServiceHealth>, order: seq<string>, n: string)
    requires Enumerates(order, services.Keys)
    requires n in services && services[n].status == NotServing
    ensures Aggregate(services, order).status == NotServing
    ensures Text.Contains(Aggregate(services, order).message.value, Segment(n, services[n]))
  {
    var segs := Segments(services, order);
    var i :| 0 <= i < |order| && order[i] == n;
    SegmentsCover(services, order, i);
    var k :| 0 <= k < |segs| && segs[k] == Segment(n, services[n]);
    Text.JoinContainsPart(segs, "; ", k);
  }

  /**
   * An entry registered under `""` cannot be looked up on its own, since
   * `check("")` is the aggregate, but a failing one still turns the aggregate
   * NotServing and contributes the segment `": <msg>"`.
   */
  lemma EmptyNameFeedsAggregate(r: Registry, order: seq<string>, m: string)
    requires Enumerates(order, r.services.Keys)
    requires "" in r.services && r.services[""] == ServiceHealth(NotServing, Some(m))
    ensures Check(r, "", order).Some? && Check(r, "", order).value.status == NotServing
    ensures Text.Contains(Check(r, "", order).value.message.value, ": " + m)
  {
    AggregateMentionsFailure(r.services, order, "");
    assert Segment("", r.services[""]) == ": " + m;
  }

  /** A registry whose only entry is a failing `""` reports exactly that segment for `check("")`. */
  lemma EmptyNameAloneExample()
    ensures Check(Registry(map["" := ServiceHealth(NotServing, Some("m"))], {""}), "", [""])
         == Some(ServiceHealth(NotServing, Some(": m")))
  {
    var services := map["" := ServiceHealth(NotServing, Some("m"))];
    var order: seq<string> := [""];
    assert order[1..] == [];
    assert Segment("", services[""]) == "" + ": " + "m" == ": m";
    assert Segments(services, order) == [": m"];
    assert Text.Join([": m"], "; ") == ": m";
  }

  /** The aggregate status does not depend on the iteration order. */
  lemma AggregateStatusIndependentOfOrder(services: map<string, ServiceHealth>, o1: seq<string>, o2: seq<string>)
    requires Enumerates(o1, services.Keys) && Enumerates(o2, services.Keys)
    ensures Aggregate(services, o1).status == Aggregate(services, o2).status
  {
  }

  /**
   * `check`: the empty name asks for the aggregate, which always exists; any
   * other name is a plain lookup that is None exactly when the name is unknown.
   */
  function Check(r: Registry, service: string, order: seq<string>): (h: Option<ServiceHealth>)
    requires Enumerates(order, r.services.Keys)
    ensures service == "" ==> h == Some(Aggregate(r.services, order))
    ensures service != "" ==> (h.None? <==> service !in r.services)
    ensures service != "" && h.Some? ==> h.value == r.services[service]
    ensures Valid(r) && h.Some? ==> WellFormed(h.value)
  {
    if service == "" then Some(Aggregate(r.services, order))
    else if service in r.services then Some(r.services[service])
    else None
  }

  /** A sequence without duplicates is as long as the set of its elements. */
  lemma {:induction false} DistinctLength(order: seq<string>)
    requires forall i, j :: 0 <= i < j < |order| ==> order[i] != order[j]
    ensures |set n | n in order| == |order|
    decreases |order|
  {
    if |order| > 0 {
      var rest := order[1..];
      DistinctLength(rest);
      assert order[0] !in rest by {
        forall i | 0 <= i < |rest| ensures rest[i] != order[0] {
          assert rest[i] == order[i + 1];
        }
      }
      assert (set n | n in order) == (set n | n in rest) + {order[0]} by {
        assert order == [order[0]] + rest;
      }
    }
  }

  /**
   * `list`: one `(name, health)` pair per table entry, each pair as stored,
   * no name twice; its length is the table's size.
   */
  function List(r: Registry, order: seq<string>): (l: seq<(string, ServiceHealth)>)
    requires Enumerates(order, r.services.Keys)
    ensures |l| == |r.services|
    ensures forall i :: 0 <= i < |l| ==> l[i].0 in r.services && l[i].1 == r.services[l[i].0]
    ensures forall n :: n in r.services ==> exists i :: 0 <= i < |l| && l[i].0 == n
    ensures forall i, j :: 0 <= i < j < |l| ==> l[i].0 != l[j].0
  {
    DistinctLength(order);
    assert (set n | n in order) == r.services.Keys;
    var l := seq(|order|, i requires 0 <= i < |order| => (order[i], r.services[order[i]]));
    ListCovers(r, order, l);
    l
  }

  lemma ListCovers(r: Registry, order: seq<string>, l: seq<(string, ServiceHealth)>)
    requires Enumerates(order, r.services.Keys)
    requires |l| == |order| && forall i :: 0 <= i < |l| ==> l[i].0 == order[i]
    ensures forall n :: n in r.services ==> exists i :: 0 <= i < |l| && l[i].0 == n
  {
    forall n | n in r.services
      ensures exists i :: 0 <= i < |l| && l[i].0 == n
    {
      var i :| 0 <= i < |order| && order[i] == n;
      assert l[i].0 == n;
    }
  }

  // ---------------------------------------------------------------------------
  // Properties that relate several operations.
  // ---------------------------------------------------------------------------

  /** Right after `register`, a non-empty name reads back the first probe's result. */
  lemma RegisterThenCheck(r: Registry, name: string, outcome: ProbeOutcome, order: seq<string>)
    requires name != ""
    requires Enumerates(order, Register(r, name, outcome).services.Keys)
    ensures Check(Register(r, name, outcome), name, order) == Some(RunProbe(outcome))
  {
  }

  /** After `deregister`, a non-empty name is unknown to `check`. */
  lemma DeregisterThenCheck(r: Registry, name: string, order: seq<string>)
    requires name != ""
    requires Enumerates(order, Deregister(r, name).services.Keys)
    ensures Check(Deregister(r, name), name, order).None?
  {
  }

  /** Registering a name twice keeps only the second registration. */
  lemma RegisterReplaces(r: Registry, name: string, o1: ProbeOutcome, o2: ProbeOutcome)
    ensures Register(Register(r, name, o1), name, o2) == Register(r, name, o2)
  {
  }

  /** Deregistering a freshly registered name restores the registry exactly. */
  lemma DeregisterUndoesRegister(r: Registry, name: string, outcome: ProbeOutcome)
    requires name !in r.services && name !in r.tasks
    ensures Deregister(Register(r, name, outcome), name) == r
  {
    assert r.services[name := RunProbe(outcome)] - {name} == r.services;
  }

  /** A tick arriving after its task was aborted changes nothing. */
  lemma TickAfterDeregister(r: Registry, name: string, outcome: ProbeOutcome)
    ensures Tick(Deregister(r, name), name, outcome) == Deregister(r, name)
  {
  }

  /** A failing tick followed by a succeeding one brings a service back to Serving with no message. */
  lemma TickRecovers(r: Registry, name: string, err: string)
    requires name in r.tasks
    ensures Tick(r, name, Failed(err)).services[name] == ServiceHealth(NotServing, Some(err))
    ensures Tick(Tick(r, name, Failed(err)), name, Completed).services[name] == ServiceHealth(Serving, None)
  {
  }

  /** The state-changing events of the registry's life. */
  datatype Event =
    | RegisterEvent(name: string, outcome: ProbeOutcome)
    | DeregisterEvent(name: string)
    | TickEvent(name: string, outcome: ProbeOutcome)

  function Step(r: Registry, e: Event): Registry {
    match e
    case RegisterEvent(n, o) => Register(r, n, o)
    case DeregisterEvent(n) => Deregister(r, n)
    case TickEvent(n, o) => Tick(r, n, o)
  }

  function Run(r: Registry, events: seq<Event>): Registry
    decreases |events|
  {
    if |events| == 0 then r else Run(Step(r, events[0]), events[1..])
  }

  /** Every sequence of events keeps the registry valid. */
  lemma {:induction false} RunPreservesValid(r: Registry, events: seq<Event>)
    requires Valid(r)
    ensures Valid(Run(r, events))
    decreases |events|
  {
    if |events| > 0 {
      RunPreservesValid(Step(r, events[0]), events[1..]);
    }
  }

  /** Every registry reachable from a new one is valid: task keys equal entry keys and entries are well formed. */
  lemma ReachableValid(events: seq<Event>)
    ensures Valid(Run(NewRegistry(), events))
  {
    RunPreservesValid(NewRegistry(), events);
  }

  /** `check("")` on a registry with no entries reports Serving with no message. */
  lemma EmptyRegistryServing(order: seq<string>)
    requires Enumerates(order, NewRegistry().services.Keys)
    ensures Check(NewRegistry(), "", order) == Some(ServiceHealth(Serving, None))
    ensures List(NewRegistry(), order) == []
  {
  }
}
