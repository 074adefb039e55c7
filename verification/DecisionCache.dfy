/**
 The bounded least-recently-used cache of visibility decisions. `Decision`
 sequences, most recent first, specify it; the class keeps a map and a list of
 the same entries, as the source does.
 */
module DecisionCache {
  import opened Wrappers
  import opened Bytes

  datatype Decision = Decision(key: Row, value: bool)

  // ---- Specification ----

  function Find(view: seq<Decision>, key: Row): Option<bool> {
    if view == [] then None
    else if view[0].key == key then Some(view[0].value)
    else Find(view[1..], key)
  }

  function Without(view: seq<Decision>, key: Row): seq<Decision> {
    if view == [] then []
    else if view[0].key == key then view[1..]
    else [view[0]] + Without(view[1..], key)
  }

  /** A hit moves the key to the front; a miss changes nothing. */
  function Touch(view: seq<Decision>, key: Row): seq<Decision> {
    match Find(view, key)
    case None => view
    case Some(value) => [Decision(key, value)] + Without(view, key)
  }

  /** Evicts from the back until there is room for one more. */
  function Trim(view: seq<Decision>, capacity: int): seq<Decision> {
    if view == [] || |view| < capacity then view else Trim(view[..|view| - 1], capacity)
  }

  function Store(view: seq<Decision>, capacity: int, key: Row, value: bool): seq<Decision> {
    [Decision(key, value)] +
    (if Find(view, key).Some? then Without(view, key) else Trim(view, capacity))
  }

  predicate Distinct(view: seq<Decision>) {
    forall i, j | 0 <= i < j < |view| :: view[i].key != view[j].key
  }

  lemma {:induction false} FindIndex(view: seq<Decision>, key: Row)
    ensures Find(view, key).Some? <==> exists i | 0 <= i < |view| :: view[i].key == key
    ensures Find(view, key).Some? ==> Decision(key, Find(view, key).value) in view
  {
    if view != [] && view[0].key != key {
      FindIndex(view[1..], key);
      assert forall i | 1 <= i < |view| :: view[i] == view[1..][i - 1];
    }
  }

  /** With distinct keys, removing a key removes exactly its position. */
  lemma {:induction false} WithoutAt(view: seq<Decision>, k: nat)
    requires Distinct(view) && k < |view|
    ensures Without(view, view[k].key) == DropAt(view, k)
    ensures Find(view, view[k].key) == Some(view[k].value)
  {
    if k > 0 {
      WithoutAt(view[1..], k - 1);
      DropAtCons(view, k);
    }
  }

  lemma DropAtCons(s: seq<Decision>, k: nat)
    requires 0 < k < |s|
    ensures [s[0]] + DropAt(s[1..], k - 1) == DropAt(s, k)
  {
    assert [s[0]] + s[1..][..k - 1] == s[..k] && s[1..][k..] == s[k + 1..];
  }

  lemma {:induction false} TrimIsPrefix(view: seq<Decision>, capacity: int)
    ensures var room := if capacity <= 1 then 0 else capacity - 1;
            Trim(view, capacity) == if |view| <= room then view else view[..room]
  {
    if view != [] && |view| >= capacity {
      TrimIsPrefix(view[..|view| - 1], capacity);
    }
  }

  /** The bound the cache may reach: its capacity, or one entry when that is less than one. */
  function Bound(capacity: int): nat { if capacity < 1 then 1 else capacity }

  function Front(all: seq<Decision>, bound: nat): seq<Decision> { if |all| <= bound then all else all[..bound] }

  function DropAt(s: seq<Decision>, k: nat): seq<Decision>
    requires k < |s|
  {
    s[..k] + s[k + 1..]
  }

  lemma FrontOfMove(all: seq<Decision>, bound: nat, k: nat, d: Decision)
    requires k < |all| && bound >= 1
    ensures k < bound ==> Front([d] + DropAt(all, k), bound) == [d] + DropAt(Front(all, bound), k)
    ensures k >= bound ==> Front([d] + DropAt(all, k), bound) == [d] + all[..bound - 1]
  {
    if k < bound < |all| {
      assert ([d] + DropAt(all, k))[..bound] == [d] + DropAt(all[..bound], k);
    } else if k >= bound {
      assert ([d] + DropAt(all, k))[..bound] == [d] + all[..bound - 1];
    }
  }

  lemma MoveDistinct(all: seq<Decision>, k: nat, value: bool)
    requires Distinct(all) && k < |all|
    ensures Distinct([Decision(all[k].key, value)] + DropAt(all, k))
  {
    var next := [Decision(all[k].key, value)] + DropAt(all, k);
    forall i | 1 <= i < |next| ensures next[i] == if i <= k then all[i - 1] else all[i] {
    }
  }

  /**
   The cache is the front of the unbounded recency list: it holds exactly the
   most recently used keys, and a store evicts only the least recently used.
   */
  lemma StoreIsRecencyPrefix(all: seq<Decision>, capacity: int, key: Row, value: bool)
    requires Distinct(all)
    ensures var bound := Bound(capacity);
            var next := [Decision(key, value)] + Without(all, key);
            Distinct(next) && Store(Front(all, bound), capacity, key, value) == Front(next, bound)
  {
    hide Find, Without, Trim;
    var bound := Bound(capacity);
    var view := Front(all, bound);
    FindIndex(view, key);
    TrimIsPrefix(view, capacity);
    if k :| 0 <= k < |all| && all[k].key == key {
      WithoutAt(all, k);
      FrontOfMove(all, bound, k, Decision(key, value));
      MoveDistinct(all, k, value);
      if k < bound {
        assert view[k] == all[k];
        WithoutAt(view, k);
      }
    } else {
      WithoutAbsent(all, key);
    }
  }

  lemma {:induction false} WithoutAbsent(view: seq<Decision>, key: Row)
    requires forall i | 0 <= i < |view| :: view[i].key != key
    ensures Without(view, key) == view
  {
    if view != [] {
      WithoutAbsent(view[1..], key);
    }
  }

  /** A hit moves its entry to the front and leaves the others in order; a miss changes nothing. */
  lemma TouchMovesToFront(view: seq<Decision>, key: Row)
    requires Distinct(view)
    ensures forall k | 0 <= k < |view| && view[k].key == key :: Touch(view, key) == [view[k]] + DropAt(view, k)
    ensures (forall k | 0 <= k < |view| :: view[k].key != key) ==> Touch(view, key) == view
  {
    hide Find, Without;
    FindIndex(view, key);
    if k :| 0 <= k < |view| && view[k].key == key {
      WithoutAt(view, k);
    }
  }

  /** A put places its decision at the front, in place of an earlier one for the key. */
  lemma StoreComesFirst(view: seq<Decision>, capacity: int, key: Row, value: bool)
    requires Distinct(view)
    ensures var after := Store(view, capacity, key, value);
            && after != [] && after[0] == Decision(key, value)
            && (forall k | 0 <= k < |view| && view[k].key == key :: after == [Decision(key, value)] + DropAt(view, k))
  {
    hide Find, Without, Trim;
    FindIndex(view, key);
    if k :| 0 <= k < |view| && view[k].key == key {
      WithoutAt(view, k);
    }
  }

  /** So does a hit, and a miss leaves both alone. */
  lemma TouchIsRecencyPrefix(all: seq<Decision>, capacity: int, key: Row)
    requires Distinct(all)
    ensures var bound := Bound(capacity);
            var view := Front(all, bound);
            var next := if Find(view, key).Some? then Touch(all, key) else all;
            Distinct(next) && Touch(view, key) == Front(next, bound)
  {
    hide Find, Without;
    var bound := Bound(capacity);
    var view := Front(all, bound);
    FindIndex(view, key);
    if k :| 0 <= k < |view| && view[k].key == key {
      assert view[k] == all[k];
      WithoutAt(all, k);
      WithoutAt(view, k);
      FrontOfMove(all, bound, k, all[k]);
      MoveDistinct(all, k, all[k].value);
    }
  }

  // ---- Whole runs ----

  datatype Use = Get(key: Row) | Put(key: Row, value: bool)

  function Apply(view: seq<Decision>, capacity: int, use: Use): seq<Decision> {
    match use
    case Get(key) => Touch(view, key)
    case Put(key, value) => Store(view, capacity, key, value)
  }

  function Uses(capacity: int, uses: seq<Use>): seq<Decision> {
    if uses == [] then [] else Apply(Uses(capacity, uses[..|uses| - 1]), capacity, uses[|uses| - 1])
  }

  /** The same uses with no bound; a get counts only when the bounded cache hits. */
  function Recency(capacity: int, uses: seq<Use>): seq<Decision> {
    if uses == [] then []
    else
      var front, last := uses[..|uses| - 1], uses[|uses| - 1];
      match last
      case Put(key, value) => [Decision(key, value)] + Without(Recency(capacity, front), key)
      case Get(key) =>
        if Find(Uses(capacity, front), key).Some? then Touch(Recency(capacity, front), key)
        else Recency(capacity, front)
  }

  /** After any run the cache is the front of the recency list, within its bound. */
  lemma {:induction false} CacheHoldsMostRecent(capacity: int, uses: seq<Use>)
    ensures var all, bound := Recency(capacity, uses), Bound(capacity);
            && Distinct(all)
            && Uses(capacity, uses) == Front(all, bound) && |Uses(capacity, uses)| <= bound
  {
    if uses != [] {
      var front, last := uses[..|uses| - 1], uses[|uses| - 1];
      CacheHoldsMostRecent(capacity, front);
      match last
      case Put(key, value) => StoreIsRecencyPrefix(Recency(capacity, front), capacity, key, value);
      case Get(key) => TouchIsRecencyPrefix(Recency(capacity, front), capacity, key);
    }
  }

  // ---- Recency by time of use ----

  /** The last of these uses put the key, or got it while it was held. */
  predicate UsesKey(capacity: int, uses: seq<Use>, key: Row)
    requires uses != []
  {
    match uses[|uses| - 1]
    case Put(k, _) => k == key
    case Get(k) => k == key && Find(Uses(capacity, uses[..|uses| - 1]), key).Some?
  }

  /** When a key was last put, or got while it was held. */
  function LastUse(capacity: int, uses: seq<Use>, key: Row): (time: Option<nat>)
    ensures time.Some? ==> time.value < |uses|
  {
    if uses == [] then None
    else if UsesKey(capacity, uses, key) then Some(|uses| - 1)
    else LastUse(capacity, uses[..|uses| - 1], key)
  }

  /** The value last put for a key. */
  function LastPut(uses: seq<Use>, key: Row): Option<bool> {
    if uses == [] then None
    else
      match uses[|uses| - 1]
      case Put(k, value) => if k == key then Some(value) else LastPut(uses[..|uses| - 1], key)
      case Get(_) => LastPut(uses[..|uses| - 1], key)
  }

  /** Entries hold the values, and stand in the order of their times, latest first. */
  predicate Timed(view: seq<Decision>, times: Row -> Option<nat>, values: Row -> Option<bool>) {
    && (forall i | 0 <= i < |view| :: times(view[i].key).Some? && values(view[i].key) == Some(view[i].value))
    && (forall i, j | 0 <= i < j < |view| :: times(view[i].key).value > times(view[j].key).value)
  }

  /** What uses so far have made of a cache: each entry its last put, latest use first. */
  predicate ByLastUse(capacity: int, uses: seq<Use>, view: seq<Decision>) {
    Timed(view, key => LastUse(capacity, uses, key), key => LastPut(uses, key))
  }

  function Removed(view: seq<Decision>, k: int): seq<Decision> {
    if 0 <= k < |view| then DropAt(view, k) else view
  }

  lemma TimedNow(
    all: seq<Decision>, d: Decision, k: int, now: nat, times: Row -> Option<nat>, values: Row -> Option<bool>,
    later: Row -> Option<nat>, newer: Row -> Option<bool>)
    requires Timed(all, times, values) && Distinct(all)
    requires forall i | 0 <= i < |all| :: i == k <==> all[i].key == d.key
    requires forall i | 0 <= i < |all| :: times(all[i].key).value < now
    requires forall key | key != d.key :: later(key) == times(key) && newer(key) == values(key)
    requires later(d.key) == Some(now) && newer(d.key) == Some(d.value)
    ensures Timed([d] + Removed(all, k), later, newer)
  {
    var next := [d] + Removed(all, k);
    forall i | 1 <= i < |next|
      ensures later(next[i].key).Some? && later(next[i].key).value < now && newer(next[i].key) == Some(next[i].value)
    {
      RemovedAt(all, d, k, i);
    }
    forall i, j | 0 <= i < j < |next| ensures later(next[i].key).value > later(next[j].key).value {
      RemovedAt(all, d, k, j);
      if i > 0 {
        RemovedAt(all, d, k, i);
        assert Source(k, i) < Source(k, j);
      }
    }
  }

  function Source(k: int, i: int): int { if 0 <= k < i then i else i - 1 }

  lemma RemovedAt(all: seq<Decision>, d: Decision, k: int, i: nat)
    requires forall i | 0 <= i < |all| :: i == k <==> all[i].key == d.key
    requires 1 <= i < |[d] + Removed(all, k)|
    ensures var n := Source(k, i); 0 <= n < |all| && n != k && ([d] + Removed(all, k))[i] == all[n]
    ensures ([d] + Removed(all, k))[i].key != d.key
  {
  }

  lemma LastUseStep(capacity: int, uses: seq<Use>, key: Row)
    requires uses != []
    ensures var front := uses[..|uses| - 1];
            LastUse(capacity, uses, key) ==
            if UsesKey(capacity, uses, key) then Some(|uses| - 1) else LastUse(capacity, front, key)
    ensures var front, last := uses[..|uses| - 1], uses[|uses| - 1];
            LastPut(uses, key) == if last.Put? && last.key == key then Some(last.value) else LastPut(front, key)
  {
  }

  lemma IndexOf(view: seq<Decision>, key: Row) returns (k: int)
    requires Distinct(view)
    ensures -1 <= k < |view| && forall i | 0 <= i < |view| :: i == k <==> view[i].key == key
    ensures Find(view, key).Some? <==> k >= 0
    ensures Without(view, key) == Removed(view, k)
    ensures k >= 0 ==> Find(view, key) == Some(view[k].value)
  {
    hide Find, Without;
    FindIndex(view, key);
    k := -1;
    if n :| 0 <= n < |view| && view[n].key == key {
      k := n;
      WithoutAt(view, n);
    } else {
      WithoutAbsent(view, key);
    }
  }

  ghost predicate AllUsedListed(capacity: int, uses: seq<Use>) {
    forall key: Row | LastUse(capacity, uses, key).Some? :: Find(Recency(capacity, uses), key).Some?
  }

  /** The unbounded list stands in the order of last use, and holds every key ever put. */
  lemma {:induction false} RecencyByLastUse(capacity: int, uses: seq<Use>)
    ensures ByLastUse(capacity, uses, Recency(capacity, uses))
    ensures AllUsedListed(capacity, uses)
  {
    hide Find, Without, Distinct, Timed, LastUse, LastPut;
    if uses == [] {
      assert Timed([], key => LastUse(capacity, uses, key), key => LastPut(uses, key)) by { NoneTimed(capacity); }
      forall key ensures LastUse(capacity, uses, key).None? { NeverUsed(capacity, key); }
    } else {
      var front, last := uses[..|uses| - 1], uses[|uses| - 1];
      RecencyByLastUse(capacity, front);
      if last.Put? || Find(Uses(capacity, front), last.key).Some? {
        RecencyUsed(capacity, uses);
      } else {
        assert Recency(capacity, uses) == Recency(capacity, front);
        RecencyMissed(capacity, uses);
      }
    }
  }

  lemma NoneTimed(capacity: int)
    ensures ByLastUse(capacity, [], [])
  {
  }

  lemma NeverUsed(capacity: int, key: Row)
    ensures LastUse(capacity, [], key).None?
  {
  }

  lemma RecencyMissed(capacity: int, uses: seq<Use>)
    requires uses != [] && uses[|uses| - 1].Get?
    requires Find(Uses(capacity, uses[..|uses| - 1]), uses[|uses| - 1].key).None?
    requires ByLastUse(capacity, uses[..|uses| - 1], Recency(capacity, uses[..|uses| - 1]))
    ensures ByLastUse(capacity, uses, Recency(capacity, uses))
    ensures forall key :: LastUse(capacity, uses, key) == LastUse(capacity, uses[..|uses| - 1], key)
  {
    hide Find, Without, LastUse, LastPut, Recency;
    var front := uses[..|uses| - 1];
    assert Recency(capacity, uses) == Recency(capacity, front) by { RecencyMiss(capacity, uses); }
    forall key
      ensures LastUse(capacity, uses, key) == LastUse(capacity, front, key) && LastPut(uses, key) == LastPut(front, key)
    {
      LastUseStep(capacity, uses, key);
    }
  }

  lemma RecencyMiss(capacity: int, uses: seq<Use>)
    requires uses != [] && uses[|uses| - 1].Get?
    requires Find(Uses(capacity, uses[..|uses| - 1]), uses[|uses| - 1].key).None?
    ensures Recency(capacity, uses) == Recency(capacity, uses[..|uses| - 1])
  {
  }

  /** A put, or a get that hits, brings its key to the front. */
  lemma RecencyUsed(capacity: int, uses: seq<Use>)
    requires uses != []
    requires var last := uses[|uses| - 1]; last.Put? || Find(Uses(capacity, uses[..|uses| - 1]), last.key).Some?
    requires ByLastUse(capacity, uses[..|uses| - 1], Recency(capacity, uses[..|uses| - 1]))
    requires AllUsedListed(capacity, uses[..|uses| - 1])
    ensures ByLastUse(capacity, uses, Recency(capacity, uses))
    ensures AllUsedListed(capacity, uses)
  {
    hide Find, Without, Distinct, LastUse, LastPut, Timed;
    var front, last, now := uses[..|uses| - 1], uses[|uses| - 1], |uses| - 1;
    var all := Recency(capacity, front);
    CacheHoldsMostRecent(capacity, front);
    var k := IndexOf(all, last.key);
    if last.Get? { HeldIsRecent(capacity, front, last.key); }
    var d := Decision(last.key, if last.Put? then last.value else all[k].value);
    assert Recency(capacity, uses) == [d] + Removed(all, k);
    forall key ensures
      (key != d.key ==> LastUse(capacity, uses, key) == LastUse(capacity, front, key) &&
                        LastPut(uses, key) == LastPut(front, key)) &&
      (key == d.key ==> LastUse(capacity, uses, key) == Some(now))
    {
      LastUseStep(capacity, uses, key);
    }
    LastUseStep(capacity, uses, d.key);
    var times, values := (key: Row) => LastUse(capacity, front, key), (key: Row) => LastPut(front, key);
    var later, newer := (key: Row) => LastUse(capacity, uses, key), (key: Row) => LastPut(uses, key);
    TimesOf(all, times, values);
    TimedNow(all, d, k, now, times, values, later, newer);
    forall key | LastUse(capacity, uses, key).Some? ensures Find(Recency(capacity, uses), key).Some? {
      StillHeld(all, d, k, key);
    }
  }

  lemma TimesOf(all: seq<Decision>, times: Row -> Option<nat>, values: Row -> Option<bool>)
    requires Timed(all, times, values)
    ensures forall i | 0 <= i < |all| :: times(all[i].key).Some? && values(all[i].key) == Some(all[i].value)
  {
  }

  lemma HeldIsRecent(capacity: int, uses: seq<Use>, key: Row)
    requires Find(Uses(capacity, uses), key).Some?
    ensures Find(Recency(capacity, uses), key).Some?
  {
    hide Find, Recency, Uses;
    CacheHoldsMostRecent(capacity, uses);
    FindIndex(Uses(capacity, uses), key);
    var i :| 0 <= i < |Uses(capacity, uses)| && Uses(capacity, uses)[i].key == key;
    assert Recency(capacity, uses)[i].key == key;
    FindIndex(Recency(capacity, uses), key);
  }

  lemma StillHeld(all: seq<Decision>, d: Decision, k: int, key: Row)
    requires key == d.key || Find(all, key).Some?
    requires 0 <= k < |all| ==> all[k].key == d.key
    ensures Find([d] + Removed(all, k), key).Some?
  {
    hide Find, Removed;
    var next := [d] + Removed(all, k);
    FindIndex(next, key);
    if key == d.key {
      assert next[0].key == key;
    } else {
      FindIndex(all, key);
      var i :| 0 <= i < |all| && all[i].key == key;
      var n := KeptIndex(all, k, i);
      assert next[n + 1].key == key;
    }
  }

  lemma KeptIndex(all: seq<Decision>, k: int, i: nat) returns (n: nat)
    requires i < |all| && i != k
    ensures n < |Removed(all, k)| && Removed(all, k)[n] == all[i]
  {
    n := if 0 <= k < i then i - 1 else i;
  }

  /**
   After any run of gets and puts: each entry holds the value last put, entries
   stand in the order of their last use, and a key that was used but is not
   held was last used before every key that is, the cache being full. So what
   is evicted is the key whose last put or hit is oldest.
   */
  lemma CacheKeepsLatestUses(capacity: int, uses: seq<Use>)
    ensures var view := Uses(capacity, uses);
            && |view| <= Bound(capacity) && Distinct(view) && ByLastUse(capacity, uses, view)
            && forall key | LastUse(capacity, uses, key).Some? && Find(view, key).None? ::
                 && |view| == Bound(capacity)
                 && forall d | d in view ::
                      LastUse(capacity, uses, d.key).Some? &&
                      LastUse(capacity, uses, d.key).value > LastUse(capacity, uses, key).value
  {
    hide Find, Recency, Uses, LastUse, LastPut;
    var all, view := Recency(capacity, uses), Uses(capacity, uses);
    CacheHoldsMostRecent(capacity, uses);
    RecencyByLastUse(capacity, uses);
    forall key | LastUse(capacity, uses, key).Some? && Find(view, key).None?
      ensures |view| == Bound(capacity) && forall d | d in view ::
                LastUse(capacity, uses, d.key).Some? &&
                LastUse(capacity, uses, d.key).value > LastUse(capacity, uses, key).value
    {
      FindIndex(all, key);
      FindIndex(view, key);
      var j :| 0 <= j < |all| && all[j].key == key;
      forall d | d in view
        ensures LastUse(capacity, uses, d.key).Some? &&
                LastUse(capacity, uses, d.key).value > LastUse(capacity, uses, key).value
      {
        var i :| 0 <= i < |view| && view[i] == d;
        assert all[i] == d && i < j;
      }
    }
  }

  // ---- The cache as the source keeps it ----

  /** A list element: the map and the list hold the same objects. */
  class Entry {
    const key: Row
    var value: bool

    constructor (key: Row, value: bool)
      ensures this.key == key && this.value == value
    {
      this.key := key;
      this.value := value;
    }
  }

  ghost function ViewOf(order: seq<Entry>): seq<Decision>
    reads order
  {
    seq(|order|, i requires 0 <= i < |order| reads order => Decision(order[i].key, order[i].value))
  }

  lemma ViewOfMove(order: seq<Entry>, k: nat)
    requires k < |order|
    ensures ViewOf([order[k]] + order[..k] + order[k + 1..]) == [ViewOf(order)[k]] + DropAt(ViewOf(order), k)
  {
  }

  /** Map and list are in bijection: one list element per key, and the map finds it. */
  ghost predicate Bijective(entries: map<Row, Entry>, order: seq<Entry>) {
    && (forall i, j | 0 <= i < j < |order| :: order[i].key != order[j].key)
    && (forall i | 0 <= i < |order| :: order[i].key in entries && entries[order[i].key] == order[i])
    && (forall k | k in entries :: entries[k] in order && entries[k].key == k)
  }

  lemma BijectiveMove(entries: map<Row, Entry>, order: seq<Entry>, k: nat)
    requires Bijective(entries, order) && k < |order|
    ensures Bijective(entries, [order[k]] + order[..k] + order[k + 1..])
  {
    var moved := [order[k]] + order[..k] + order[k + 1..];
    forall i | 0 <= i < |moved| ensures moved[i] == order[Moved(k, i)] && 0 <= Moved(k, i) < |order| {
    }
    forall i | 0 <= i < |order| ensures order[i] in moved {
      assert order[i] == moved[if i == k then 0 else if i < k then i + 1 else i];
    }
  }

  function Moved(k: nat, i: nat): nat { if i == 0 then k else if i <= k then i - 1 else i }

  lemma BijectiveEvict(entries: map<Row, Entry>, order: seq<Entry>)
    requires Bijective(entries, order) && order != []
    ensures Bijective(entries - {order[|order| - 1].key}, order[..|order| - 1])
  {
    var last, rest := order[|order| - 1], order[..|order| - 1];
    var left := entries - {last.key};
    forall k | k in left ensures left[k] in rest {
      var i :| 0 <= i < |order| && order[i] == entries[k];
      assert i != |order| - 1;
      assert rest[i] == left[k];
    }
  }

  lemma BijectivePush(entries: map<Row, Entry>, order: seq<Entry>, element: Entry)
    requires Bijective(entries, order) && element.key !in entries
    ensures Bijective(entries[element.key := element], [element] + order)
  {
  }

  class Cache {
    const capacity: int
    var entries: map<Row, Entry>
    var order: seq<Entry>

    ghost predicate Valid()
      reads this
    {
      Bijective(entries, order)
    }

    ghost function View(): seq<Decision>
      reads this, order
    {
      ViewOf(order)
    }

    constructor (capacity: int)
      ensures Valid() && View() == [] && this.capacity == capacity && order == []
    {
      this.capacity := capacity;
      entries := map[];
      order := [];
    }

    /** The map decides presence exactly as a search of the list would. */
    lemma Present(key: Row)
      requires Valid()
      ensures key in entries <==> Find(View(), key).Some?
      ensures Distinct(View())
    {
      FindIndex(View(), key);
      if key in entries {
        var i :| 0 <= i < |order| && order[i] == entries[key];
        assert View()[i].key == key;
      }
      if i :| 0 <= i < |View()| && View()[i].key == key {
        assert order[i].key == key;
      }
    }

    lemma InOrder(key: Row)
      requires Valid() && key in entries
      ensures entries[key] in order && entries[key].key == key
    {
    }

    method MoveToFront(element: Entry) returns (ghost k: nat)
      requires Valid() && element in order
      modifies this
      ensures Valid() && entries == old(entries)
      ensures k < |old(order)| && old(order)[k] == element
      ensures order == [element] + old(order)[..k] + old(order)[k + 1..]
    {
      var index :| 0 <= index < |order| && order[index] == element;
      hide Bijective;
      k := index;
      BijectiveMove(entries, order, index);
      order := [element] + order[..index] + order[index + 1..];
    }

    method Get(key: Row) returns (value: bool, hit: bool)
      requires Valid()
      modifies this
      ensures Valid() && View() == Touch(old(View()), key)
      ensures hit <==> Find(old(View()), key).Some?
      ensures hit ==> value == Find(old(View()), key).value
      ensures forall e | e in order :: e in old(order)
    {
      hide Find, Without, Bijective;
      Present(key);
      if key !in entries {
        return false, false;
      }
      InOrder(key);
      var element := entries[key];
      ghost var view, before := View(), order;
      ghost var k := MoveToFront(element);
      WithoutAt(view, k);
      ViewOfMove(before, k);
      return element.value, true;
    }

    method Evict()
      requires Valid() && order != []
      modifies this
      ensures Valid() && order == old(order)[..|old(order)| - 1] && entries.Keys <= old(entries.Keys)
    {
      hide Bijective;
      BijectiveEvict(entries, order);
      var oldest := order[|order| - 1];
      order := order[..|order| - 1];
      entries := entries - {oldest.key};
    }

    /** The eviction loop. */
    method MakeRoom()
      requires Valid()
      modifies this
      ensures Valid() && |order| <= |old(order)| && order == old(order)[..|order|]
      ensures View() == Trim(old(View()), capacity)
      ensures entries.Keys <= old(entries.Keys)
    {
      hide Bijective;
      ghost var before, view := order, View();
      assert before[..|order|] == before && view[..|order|] == view;
      while |order| >= capacity && order != []
        invariant Valid() && |order| <= |before| && order == before[..|order|]
        invariant Trim(view, capacity) == Trim(view[..|order|], capacity)
        invariant entries.Keys <= old(entries.Keys)
        decreases |order|
      {
        Evict();
        assert view[..|order| + 1][..|order|] == view[..|order|];
      }
      assert View() == view[..|order|];
    }

    method Replace(key: Row, value: bool)
      requires Valid() && key in entries
      modifies this, order
      ensures Valid() && View() == [Decision(key, value)] + Without(old(View()), key)
      ensures forall e | e in order :: e in old(order)
    {
      hide Find, Without, Bijective;
      Present(key);
      InOrder(key);
      ghost var view, before := View(), order;
      var element := entries[key];
      element.value := value;
      ghost var k := MoveToFront(element);
      assert view[k].key == key;
      WithoutAt(view, k);
      ViewOfMove(before, k);
      assert DropAt(ViewOf(before), k) == DropAt(view, k);
    }

    method Put(key: Row, value: bool)
      requires Valid()
      modifies this, order
      ensures Valid() && View() == Store(old(View()), capacity, key, value)
      ensures forall e | e in order :: e in old(order) || fresh(e)
    {
      hide Bijective, Find, Without, Trim;
      Present(key);
      if key in entries {
        Replace(key, value);
        return;
      }
      MakeRoom();
      var element := new Entry(key, value);
      BijectivePush(entries, order, element);
      ghost var kept := View();
      order := [element] + order;
      entries := entries[key := element];
      assert View() == [Decision(key, value)] + kept;
    }
  }
}
