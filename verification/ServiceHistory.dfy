/** The status history of a trust service: the sort and the end times of parseMsTl
    (packages/lotl-flattener/src/fetch/msTl.ts), their reading by extractCAs
    (packages/lotl-flattener/src/ca/extract.ts), and the activity test isCaActiveAt
    (packages/web/src/lib/qesVerify.ts). Together they are meant to cut time into intervals. */
module ServiceHistory {
  import opened Results

  /** info stands for the fields that play no part in the order. Times are in seconds. */
  datatype State = State(info: string, start: int)

  datatype Service = Service(state: State, end: Option<int>)

  datatype Ca = Ca(state: State, validFrom: int, validTo: Option<int>)

  // ----- Sorting by start -----

  predicate Sorted(s: seq<State>) {
    forall i, j :: 0 <= i < j < |s| ==> s[i].start <= s[j].start
  }

  /** The states with one starting time, in their order. */
  function With(s: seq<State>, start: int): seq<State> {
    if s == [] then [] else (if s[0].start == start then [s[0]] else []) + With(s[1..], start)
  }

  /** A stable sort: sorted, and states with the same starting time keep their order. */
  ghost predicate StableSortOf(sorted: seq<State>, s: seq<State>) {
    Sorted(sorted) && forall k :: With(sorted, k) == With(s, k)
  }

  function Insert(x: State, s: seq<State>): (r: seq<State>)
    ensures |r| == |s| + 1 && multiset(r) == multiset(s) + multiset{x}
  {
    if s == [] || x.start <= s[0].start then
      assert multiset([x] + s) == multiset(s) + multiset{x};
      [x] + s
    else
      var rest := Insert(x, s[1..]);
      assert s == [s[0]] + s[1..] && multiset([s[0]] + rest) == multiset([s[0]]) + multiset(rest);
      [s[0]] + rest
  }

  function SortByStart(s: seq<State>): (r: seq<State>)
    ensures |r| == |s| && multiset(r) == multiset(s)
  {
    if s == [] then []
    else
      assert s == [s[0]] + s[1..];
      Insert(s[0], SortByStart(s[1..]))
  }

  lemma {:induction false} InsertSorts(x: State, s: seq<State>)
    requires Sorted(s)
    ensures Sorted(Insert(x, s))
    ensures Insert(x, s)[0].start == if s == [] || x.start <= s[0].start then x.start else s[0].start
  {
    if s != [] && x.start > s[0].start { InsertSorts(x, s[1..]); }
  }

  lemma {:induction false} InsertStable(x: State, s: seq<State>, k: int)
    ensures With(Insert(x, s), k) == (if x.start == k then [x] else []) + With(s, k)
  {
    if s == [] || x.start <= s[0].start {
      assert ([x] + s)[1..] == s;
    } else {
      InsertStable(x, s[1..], k);
      var head := if s[0].start == k then [s[0]] else [];
      assert Insert(x, s)[1..] == Insert(x, s[1..]);
      assert With(Insert(x, s), k) == head + With(Insert(x, s[1..]), k);
    }
  }

  lemma {:induction false} SortIsStable(s: seq<State>)
    ensures StableSortOf(SortByStart(s), s)
  {
    if s != [] {
      SortIsStable(s[1..]);
      InsertSorts(s[0], SortByStart(s[1..]));
      forall k ensures With(SortByStart(s), k) == With(s, k) { InsertStable(s[0], SortByStart(s[1..]), k); }
    }
  }

  lemma {:induction false} FirstOfWith(s: seq<State>, k: int)
    requires With(s, k) != []
    ensures exists i :: 0 <= i < |s| && s[i].start == k
  {
    if s[0].start != k {
      FirstOfWith(s[1..], k);
      var i :| 0 <= i < |s| - 1 && s[1..][i].start == k;
      assert s[i + 1].start == k;
    }
  }

  /** There is only one stable sort, whatever the algorithm of the library. */
  lemma {:induction false} StableSortUnique(a: seq<State>, b: seq<State>)
    requires Sorted(a) && Sorted(b) && forall k :: With(a, k) == With(b, k)
    ensures a == b
  {
    if a == [] {
      if b != [] { SameHead(b, a); }
    } else {
      SameHead(a, b);
      forall k ensures With(a[1..], k) == With(b[1..], k) {
        DropHead(a, b, k);
      }
      StableSortUnique(a[1..], b[1..]);
      assert a == [a[0]] + a[1..] && b == [b[0]] + b[1..];
    }
  }

  lemma DropHead(a: seq<State>, b: seq<State>, k: int)
    requires a != [] && b != [] && a[0] == b[0] && With(a, k) == With(b, k)
    ensures With(a[1..], k) == With(b[1..], k)
  {
    var head := if a[0].start == k then [a[0]] else [];
    assert (head + With(a[1..], k))[|head|..] == With(a[1..], k);
    assert (head + With(b[1..], k))[|head|..] == With(b[1..], k);
  }

  lemma HeadOfWith(s: seq<State>)
    requires s != []
    ensures With(s, s[0].start) != [] && With(s, s[0].start)[0] == s[0]
  {
  }

  /** Of two sorted lists, if b has the states of a that start like its first, then b starts no later. */
  lemma StartsNoLater(a: seq<State>, b: seq<State>)
    requires Sorted(b) && a != [] && With(b, a[0].start) == With(a, a[0].start)
    ensures b != [] && b[0].start <= a[0].start
  {
    HeadOfWith(a);
    FirstOfWith(b, a[0].start);
  }

  lemma SameFirst(a: seq<State>, b: seq<State>, k: int)
    requires a != [] && b != [] && a[0].start == b[0].start == k && With(a, k) == With(b, k)
    ensures a[0] == b[0]
  {
    HeadOfWith(a);
    HeadOfWith(b);
  }

  lemma SameHead(a: seq<State>, b: seq<State>)
    requires Sorted(a) && Sorted(b) && a != [] && forall k :: With(a, k) == With(b, k)
    ensures b != [] && a[0] == b[0]
  {
    StartsNoLater(a, b);
    StartsNoLater(b, a);
    SameFirst(a, b, a[0].start);
  }

  // ----- End times, and what is read from them -----

  function Max(a: int, b: int): int {
    if a > b then a else b
  }

  /** A state ends one second before the next one starts; a start of 0 counts as missing. */
  function EndOf(states: seq<State>, i: nat): Option<int> {
    if i + 1 < |states| && states[i + 1].start != 0 then Some(Max(0, states[i + 1].start - 1)) else None
  }

  function Services(states: seq<State>): seq<Service> {
    seq(|states|, i requires 0 <= i < |states| => Service(states[i], EndOf(states, i)))
  }

  function StatesOf(services: seq<Service>): (states: seq<State>)
    ensures |states| == |services|
  {
    seq(|services|, i requires 0 <= i < |services| => services[i].state)
  }

  /** Every state is emitted with its own fields, in its place. */
  lemma ServicesCarryStates(states: seq<State>)
    ensures StatesOf(Services(states)) == states
  {
  }

  /** A service has no end exactly if it is the last, or the next one starts at 0; otherwise it ends
      one second before that start, or at 0 if that is earlier than 0. */
  predicate EndsBeforeNext(services: seq<Service>) {
    forall i :: 0 <= i < |services| ==>
      if i + 1 == |services| || services[i + 1].state.start == 0 then services[i].end == None
      else services[i].end == Some(if services[i + 1].state.start < 1 then 0 else services[i + 1].state.start - 1)
  }

  lemma ServicesEnd(states: seq<State>)
    ensures EndsBeforeNext(Services(states))
  {
  }

  /** The current state and its history, all of them with their own fields, in a stable sort. */
  method ParseServiceStates(current: State, history: seq<State>) returns (out: seq<Service>)
    ensures out == Services(SortByStart([current] + history))
    ensures |out| == |history| + 1 && multiset(StatesOf(out)) == multiset([current] + history)
    ensures StableSortOf(StatesOf(out), [current] + history) && EndsBeforeNext(out)
  {
    var states := SortByStart([current] + history);
    out := [];
    for i := 0 to |states|
      invariant out == Services(states)[..i]
    {
      var end := None;
      if i + 1 < |states| && states[i + 1].start != 0 {
        end := Some(Max(0, states[i + 1].start - 1));
      }
      out := out + [Service(states[i], end)];
    }
    ServicesCarryStates(states);
    ServicesEnd(states);
    SortIsStable([current] + history);
  }

  /** extractCAs: an end of 0 counts as missing. */
  function Extract(s: Service): Ca {
    Ca(s.state, s.state.start, if s.end.Some? && s.end.value != 0 then s.end else None)
  }

  predicate IsCaActiveAt(ca: Ca, t: int) {
    ca.validFrom <= t && (ca.validTo.Some? ==> t <= ca.validTo.value)
  }

  /** State i of a history is taken to be active at t. */
  predicate ActiveAt(states: seq<State>, i: nat, t: int) {
    i < |states| && IsCaActiveAt(Extract(Services(states)[i]), t)
  }

  // ----- Do the intervals partition time? -----

  /** The state in force: the last one, in sorted order, that has started. */
  function InForce(states: seq<State>, t: int): (r: nat)
    requires states != [] && states[0].start <= t
    ensures r < |states| && states[r].start <= t
    ensures forall i :: r < i < |states| ==> states[i].start > t
  {
    var n := |states| - 1;
    if states[n].start <= t then n else InForce(states[..n], t)
  }

  /** Every start but the first is late enough that its predecessor's end is kept. */
  predicate LateStarts(states: seq<State>) {
    forall i :: 1 <= i < |states| ==> states[i].start > 1
  }

  predicate OneActive(states: seq<State>, t: int) {
    exists i: nat :: i < |states| && ActiveAt(states, i, t)
      && forall j: nat :: j < |states| && ActiveAt(states, j, t) ==> j == i
  }

  /** With late starts exactly the state in force is active, even among equal starts. */
  lemma ActiveIsInForce(states: seq<State>, i: nat, t: int)
    requires Sorted(states) && LateStarts(states) && i < |states| && states[0].start <= t
    ensures ActiveAt(states, i, t) <==> i == InForce(states, t)
  {
  }

  lemma NoneBeforeFirst(states: seq<State>, i: nat, t: int)
    requires Sorted(states) && states != [] && t < states[0].start
    ensures !ActiveAt(states, i, t)
  {
  }

  /** From the first start on exactly one state is active at every time, if and only if every
      later start is above 1: otherwise the state before it never ends. */
  lemma PartitionsTimeIff(states: seq<State>)
    requires Sorted(states) && states != []
    ensures (forall t :: states[0].start <= t ==> OneActive(states, t)) <==> LateStarts(states)
  {
    if LateStarts(states) {
      forall t | states[0].start <= t ensures OneActive(states, t) {
        var r := InForce(states, t);
        forall i: nat | i < |states| ensures ActiveAt(states, i, t) <==> i == r { ActiveIsInForce(states, i, t); }
        assert ActiveAt(states, r, t);
      }
    } else {
      var i :| 1 <= i < |states| && states[i].start <= 1;
      var t := states[|states| - 1].start;
      assert ActiveAt(states, i - 1, t) && ActiveAt(states, |states| - 1, t);
      assert !OneActive(states, t);
    }
  }

  /** The property of the parser's own output: for every input history. */
  lemma HistoryPartitionsTimeIff(current: State, history: seq<State>)
    ensures var states := SortByStart([current] + history);
      (forall t :: states[0].start <= t ==> OneActive(states, t)) <==> LateStarts(states)
  {
    SortIsStable([current] + history);
    PartitionsTimeIff(SortByStart([current] + history));
  }

  /** Service i is kept by a test of its own state, and its authority is active at t. */
  predicate KeptAndActive(services: seq<Service>, keep: State -> bool, i: nat, t: int) {
    i < |services| && keep(services[i].state) && IsCaActiveAt(Extract(services[i]), t)
  }

  ghost predicate KeepsInForce(services: seq<Service>, keep: State -> bool, inForce: State, t: int) {
    && ((exists i: nat :: KeptAndActive(services, keep, i, t)) <==> keep(inForce))
    && forall i: nat :: KeptAndActive(services, keep, i, t) ==>
         services[i].state == inForce && Extract(services[i]).state == inForce
  }

  lemma FilterSorted(states: seq<State>, keep: State -> bool, t: int)
    requires Sorted(states) && LateStarts(states) && states != [] && states[0].start <= t
    ensures KeepsInForce(Services(states), keep, states[InForce(states, t)], t)
  {
    var r, services := InForce(states, t), Services(states);
    forall i: nat | KeptAndActive(services, keep, i, t) ensures i == r { ActiveIsInForce(states, i, t); }
    ActiveIsInForce(states, r, t);
    assert keep(states[r]) ==> KeptAndActive(services, keep, r, t);
  }

  /** Keeping only some of the emitted services, as the filter for granted ones does, leaves an
      active authority at t exactly when the state in force at t is kept, and it is that state's. */
  lemma FilterKeepsInForce(current: State, history: seq<State>, keep: State -> bool, t: int)
    requires var states := SortByStart([current] + history); LateStarts(states) && states[0].start <= t
    ensures var states := SortByStart([current] + history);
      KeepsInForce(Services(states), keep, states[InForce(states, t)], t)
  {
    SortIsStable([current] + history);
    FilterSorted(SortByStart([current] + history), keep, t);
  }
}
