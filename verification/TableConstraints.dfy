/**
 Constraint numbers: how they are parsed out of table properties and chosen,
 and the compare-and-set protocol any number of clients run to install them.
 */
module TableConstraints {
  import opened Wrappers

  type Properties = map<string, string>

  datatype Constraint = Constraint(className: string, number: int)

  const PREFIX: string := "table.constraint."
  const MAX_INT32: int := 0x7fff_ffff
  const MIN_INT32: int := -0x8000_0000
  const ATTEMPTS: nat := 5

  // ---- Numbers as text ----

  predicate IsDigit(c: char) { '0' <= c <= '9' }

  function Digit(n: nat): char
    requires n < 10
  {
    '0' + (n as char)
  }

  function DigitValue(c: char): nat
    requires IsDigit(c)
  {
    (c as int) - ('0' as int)
  }

  /** `strconv.FormatInt` for a natural number. */
  function Format(n: nat): (s: string)
    ensures s != [] && forall i | 0 <= i < |s| :: IsDigit(s[i])
  {
    if n < 10 then [Digit(n)] else Format(n / 10) + [Digit(n % 10)]
  }

  function DecimalValue(s: string): nat
    requires forall i | 0 <= i < |s| :: IsDigit(s[i])
  {
    if s == [] then 0 else 10 * DecimalValue(s[..|s| - 1]) + DigitValue(s[|s| - 1])
  }

  predicate AllDigits(s: string) { s != [] && forall i | 0 <= i < |s| :: IsDigit(s[i]) }

  /** `strconv.ParseInt(s, 10, 32)`: an optional sign, then digits, within 32 bits. */
  function ParseInt(s: string): Option<int> {
    if s == [] then None
    else
      var negative, digits := s[0] == '-', if s[0] == '-' || s[0] == '+' then s[1..] else s;
      if !AllDigits(digits) then None
      else
        var value := if negative then -(DecimalValue(digits) as int) else DecimalValue(digits);
        if MIN_INT32 <= value <= MAX_INT32 then Some(value) else None
  }

  lemma {:induction false} FormatValue(n: nat)
    ensures DecimalValue(Format(n)) == n
  {
    if n < 10 {
      assert [Digit(n)][..0] == [];
    } else {
      FormatValue(n / 10);
      assert (Format(n / 10) + [Digit(n % 10)])[..|Format(n / 10)|] == Format(n / 10);
    }
  }

  /** Parsing undoes formatting. */
  lemma ParseFormat(n: nat)
    requires n <= MAX_INT32
    ensures ParseInt(Format(n)) == Some(n)
  {
    FormatValue(n);
    assert IsDigit(Format(n)[0]);
  }

  /** A sign or a leading zero changes nothing but the sign; numbers beyond 32 bits are not numbers. */
  lemma ParseForms(n: nat)
    ensures n > MAX_INT32 ==> ParseInt(Format(n)).None?
    ensures n <= MAX_INT32 ==> ParseInt("+" + Format(n)) == ParseInt("0" + Format(n)) == Some(n)
    ensures n <= -MIN_INT32 ==> ParseInt("-" + Format(n)) == Some(-(n as int))
  {
    FormatValue(n);
    LeadingZero(Format(n));
    assert IsDigit(Format(n)[0]);
    assert ("+" + Format(n))[1..] == ("-" + Format(n))[1..] == Format(n);
    assert AllDigits("0" + Format(n));
  }

  lemma {:induction false} LeadingZero(s: string)
    requires AllDigits(s)
    ensures AllDigits("0" + s) && DecimalValue("0" + s) == DecimalValue(s)
  {
    var padded := "0" + s;
    assert padded[..|padded| - 1] == "0" + s[..|s| - 1];
    if |s| > 1 {
      LeadingZero(s[..|s| - 1]);
    } else {
      assert s[..0] == "" && padded[..1] == "0" && "0"[..0] == "";
    }
  }

  // ---- Reading constraints out of properties ----

  function FormatInt(n: int): string { if n < 0 then "-" + Format(-n) else Format(n) }

  function Key(number: int): string { PREFIX + FormatInt(number) }

  /** The constraint number a property names, if it names one. */
  function NumberOf(property: string): Option<int> {
    if PREFIX <= property then
      var number := ParseInt(property[|PREFIX|..]);
      if number.Some? && number.value >= 1 then number else None
    else None
  }

  lemma KeyNumber(number: int)
    requires number <= MAX_INT32
    ensures NumberOf(Key(number)) == if 1 <= number then Some(number) else None
  {
    assert Key(number)[|PREFIX|..] == FormatInt(number);
    if number >= 0 { ParseFormat(number); }
  }

  /** `parseConstraints`, as a set: positive 32-bit suffixes with a non-empty class. */
  function Installed(properties: Properties): set<Constraint> {
    set p | p in properties && NumberOf(p).Some? && properties[p] != "" :: Constraint(properties[p], NumberOf(p).value)
  }

  function Numbers(constraints: set<Constraint>): set<int> { set c | c in constraints :: c.number }

  /** `mergeProperties`. */
  function Merge(base: Properties, overlay: Properties): Properties { base + overlay }

  // ---- Choosing a number ----

  ghost function UsedFrom(used: set<int>, n: int): set<int> { set u | u in used && u >= n }

  lemma UsedShrinks(used: set<int>, n: int)
    requires n in used
    ensures |UsedFrom(used, n + 1)| == |UsedFrom(used, n)| - 1
  {
    assert UsedFrom(used, n) == UsedFrom(used, n + 1) + {n};
  }

  /** The lowest unused number from `n` on. */
  function NextFrom(used: set<int>, n: int): (m: int)
    ensures n <= m && m !in used && forall k | n <= k < m :: k in used
    decreases |UsedFrom(used, n)|
  {
    if n !in used then n
    else
      UsedShrinks(used, n);
      NextFrom(used, n + 1)
  }

  /** The search tries at most one number more than there are used ones. */
  lemma {:induction false} NextFromBound(used: set<int>, n: int)
    ensures NextFrom(used, n) <= n + |UsedFrom(used, n)|
    decreases |UsedFrom(used, n)|
  {
    if n in used {
      UsedShrinks(used, n);
      NextFromBound(used, n + 1);
    }
  }

  lemma SubsetCount<T>(a: set<T>, b: set<T>)
    requires a <= b
    ensures |a| <= |b|
  {
    assert b == a + (b - a);
  }

  lemma NextNumberBound(used: set<int>)
    ensures 1 <= NextFrom(used, 1) <= |used| + 1
  {
    NextFromBound(used, 1);
    SubsetCount(UsedFrom(used, 1), used);
  }

  /** Counting up in 32 bits: past the largest number comes the smallest, which is never used. */
  function Wrapped(n: int): int { if n > MAX_INT32 then MIN_INT32 else n }

  /** `nextConstraintNumber`: collects the numbers, then counts up from one in 32 bits. */
  method NextConstraintNumber(installed: seq<Constraint>) returns (number: int)
    requires forall c | c in installed :: 1 <= c.number <= MAX_INT32
    ensures number == Wrapped(NextFrom(set c | c in installed :: c.number, 1))
    ensures number <= |installed| + 1
  {
    var used: set<int> := {};
    for i := 0 to |installed|
      invariant used == set c | c in installed[..i] :: c.number
      invariant |used| <= i
    {
      assert installed[..i + 1] == installed[..i] + [installed[i]];
      used := used + {installed[i].number};
    }
    assert installed[..|installed|] == installed;
    NextNumberBound(used);
    number := 1;
    while number in used
      invariant 1 <= number <= MAX_INT32 && NextFrom(used, number) == NextFrom(used, 1)
      decreases |UsedFrom(used, number)|
    {
      UsedShrinks(used, number);
      if number == MAX_INT32 {
        return MIN_INT32;
      }
      number := number + 1;
    }
  }

  predicate Ascending(cs: seq<Constraint>) { forall i, j | 0 <= i < j < |cs| :: cs[i].number <= cs[j].number }

  /** `constraintNumberOf` on constraints sorted by number: the lowest number of the class. */
  method ConstraintNumberOf(installed: seq<Constraint>, className: string) returns (number: int, found: bool)
    requires Ascending(installed)
    ensures found <==> exists c | c in installed :: c.className == className
    ensures found ==> Constraint(className, number) in installed
    ensures found ==> forall c | c in installed && c.className == className :: number <= c.number
  {
    for i := 0 to |installed|
      invariant forall j | 0 <= j < i :: installed[j].className != className
    {
      if installed[i].className == className {
        return installed[i].number, true;
      }
    }
    return 0, false;
  }

  /** `parseConstraints`: walks the map in any order, then sorts by number. */
  method ParseConstraints(properties: Properties) returns (constraints: seq<Constraint>)
    ensures (set c | c in constraints) == Installed(properties) && Ascending(constraints)
  {
    constraints := [];
    var todo := properties.Keys;
    while todo != {}
      invariant todo <= properties.Keys && Ascending(constraints)
      invariant forall c :: c in constraints <==>
                  exists p | p in properties && p !in todo && NumberOf(p).Some? && properties[p] != "" ::
                    c == Constraint(properties[p], NumberOf(p).value)
      decreases todo
    {
      var property :| property in todo;
      ghost var before, left := constraints, todo;
      todo := todo - {property};
      var number := NumberOf(property);
      if number.Some? && properties[property] != "" {
        var added := Constraint(properties[property], number.value);
        constraints := InsertByNumber(constraints, added);
        forall c ensures c in constraints <==>
                  exists p | p in properties && p !in todo && NumberOf(p).Some? && properties[p] != "" ::
                    c == Constraint(properties[p], NumberOf(p).value)
        {
          if c in constraints && c != added { assert c in before; }
          if p :| p in properties && p !in todo && NumberOf(p).Some? && properties[p] != "" &&
                  c == Constraint(properties[p], NumberOf(p).value) && p != property {
            assert p !in left;
          }
        }
      } else {
        assert forall p | p in properties && NumberOf(p).Some? && properties[p] != "" :: p !in todo <==> p !in left;
      }
    }
  }

  method InsertByNumber(constraints: seq<Constraint>, c: Constraint) returns (r: seq<Constraint>)
    requires Ascending(constraints)
    ensures Ascending(r) && forall x :: x in r <==> x in constraints || x == c
  {
    var i := |constraints|;
    while i > 0 && constraints[i - 1].number > c.number
      invariant 0 <= i <= |constraints|
      invariant forall j | i <= j < |constraints| :: constraints[j].number > c.number
    {
      i := i - 1;
    }
    r := constraints[..i] + [c] + constraints[i..];
    InsertedAt(constraints, i, c);
  }

  lemma InsertedAt(constraints: seq<Constraint>, i: nat, c: Constraint)
    requires i <= |constraints| && Ascending(constraints)
    requires forall j | i <= j < |constraints| :: constraints[j].number > c.number
    requires i > 0 ==> constraints[i - 1].number <= c.number
    ensures var r := constraints[..i] + [c] + constraints[i..];
            Ascending(r) && forall x :: x in r <==> x in constraints || x == c
  {
    hide Ascending;
    forall x ensures x in constraints[..i] + [c] + constraints[i..] <==> x in constraints || x == c {
      assert constraints == constraints[..i] + constraints[i..];
      InMiddle(constraints[..i], c, constraints[i..], x);
    }
    InsertedAscends(constraints, i, c, constraints[..i] + [c] + constraints[i..]);
  }

  lemma InMiddle(front: seq<Constraint>, c: Constraint, back: seq<Constraint>, x: Constraint)
    ensures x in front + [c] + back <==> x in front + back || x == c
  {
  }

  lemma InsertedAscends(constraints: seq<Constraint>, i: nat, c: Constraint, r: seq<Constraint>)
    requires i <= |constraints| && Ascending(constraints) && |r| == |constraints| + 1 && r[i] == c
    requires forall k | 0 <= k < i :: r[k] == constraints[k]
    requires forall k | i < k < |r| :: r[k] == constraints[k - 1]
    requires forall j | i <= j < |constraints| :: constraints[j].number > c.number
    requires i > 0 ==> constraints[i - 1].number <= c.number
    ensures Ascending(r)
  {
  }

  // ---- The protocol ----

  /** The table's own properties and the version a write must present. */
  datatype Store = Store(version: nat, properties: Properties)

  datatype Outcome = Added(number: int) | Present(number: int) | Unavailable | Failed

  /** Where one AddConstraint call stands between its three remote operations. */
  datatype Client =
    | Ready(className: string, attempt: nat)
    | Owned(className: string, attempt: nat, version: nat, owned: Properties)
    | Both(className: string, attempt: nat, version: nat, owned: Properties, effective: Properties)
    | Done(className: string, outcome: Outcome)

  datatype System = System(store: Store, namespace: Properties, clients: map<nat, Client>)

  datatype Action =
    | Call(id: nat, className: string)
    | ReadOwned(id: nat)
    | ReadEffective(id: nat)
    | Write(id: nat)
    | LostReply(id: nat)
    | Abort(id: nat)
    | Remove(number: int)
    | ChangeNamespace(properties: Properties)

  predicate ValidClass(className: string) {
    className != "" && ' ' !in className && '\t' !in className && '\r' !in className && '\n' !in className
  }

  /** The lowest number a class is installed under. */
  ghost function LowestNumber(constraints: set<Constraint>, className: string): (n: int)
    requires Carries(constraints, className)
    ensures Constraint(className, n) in constraints
    ensures forall c | c in constraints && c.className == className :: n <= c.number
  {
    LeastExists(NumbersOf(constraints, className));
    var n :| IsLeast(NumbersOf(constraints, className), n);
    assert forall c | c in constraints && c.className == className :: c.number in NumbersOf(constraints, className);
    n
  }

  ghost function NumbersOf(constraints: set<Constraint>, className: string): (numbers: set<int>)
    ensures Carries(constraints, className) ==> numbers != {}
  {
    var numbers := set c | c in constraints && c.className == className :: c.number;
    assert Carries(constraints, className) ==> numbers != {} by {
      if c :| c in constraints && c.className == className {
        assert c.number in numbers;
      }
    }
    numbers
  }

  ghost predicate IsLeast(s: set<int>, n: int) { n in s && forall m | m in s :: n <= m }

  lemma SomeMember(s: set<int>)
    ensures s == {} || exists x :: x in s
  {
    if forall x :: x !in s { assert s == {}; }
  }

  lemma {:induction false} LeastExists(s: set<int>)
    requires s != {}
    ensures exists n :: IsLeast(s, n)
  {
    SomeMember(s);
    var x :| x in s;
    var rest := s - {x};
    if rest == {} {
      assert s == {x};
      assert IsLeast(s, x);
    } else {
      LeastExists(rest);
      var n :| IsLeast(rest, n);
      assert forall m | m in s :: m == x || m in rest;
      assert IsLeast(s, if n <= x then n else x);
    }
  }

  function Visible(c: Client): set<Constraint>
    requires c.Both?
  {
    Installed(Merge(c.effective, c.owned))
  }

  predicate Carries(constraints: set<Constraint>, className: string) {
    exists c | c in constraints :: c.className == className
  }

  /** The number the call picks when the class is not visible. */
  function Chosen(c: Client): int
    requires c.Both?
  {
    Wrapped(NextFrom(Numbers(Visible(c)), 1))
  }

  /**
   One atomic step; a step that is not enabled changes nothing. A lost reply is
   a write that reached the store, or not, and came back as an error.
   */
  ghost function Next(s: System, a: Action): System {
    match a
    case Call(id, className) =>
      if id in s.clients || !ValidClass(className) then s
      else s.(clients := s.clients[id := Client.Ready(className, 0)])
    case ReadOwned(id) =>
      if id !in s.clients || !s.clients[id].Ready? then s
      else
        var c := s.clients[id];
        s.(clients := s.clients[id := Owned(c.className, c.attempt, s.store.version, s.store.properties)])
    case ReadEffective(id) =>
      if id !in s.clients || !s.clients[id].Owned? then s
      else
        var c := s.clients[id];
        var effective := Merge(s.namespace, s.store.properties);
        s.(clients := s.clients[id := Both(c.className, c.attempt, c.version, c.owned, effective)])
    case Write(id) => if id !in s.clients || !s.clients[id].Both? then s else Writes(s, id)
    case LostReply(id) =>
      if id !in s.clients || !s.clients[id].Both? || Carries(Visible(s.clients[id]), s.clients[id].className) then s
      else Writes(s, id).(clients := s.clients[id := Done(s.clients[id].className, Failed)])
    case Abort(id) =>
      if id !in s.clients || s.clients[id].Done? then s
      else s.(clients := s.clients[id := Done(s.clients[id].className, Failed)])
    case Remove(number) =>
      if number < 1 || number > MAX_INT32 then s
      else s.(store := Store(s.store.version + 1, s.store.properties - {Key(number)}))
    case ChangeNamespace(properties) => s.(namespace := properties)
  }

  /** The end of one attempt: return the number found, or compare and set. */
  ghost function Writes(s: System, id: nat): System
    requires id in s.clients && s.clients[id].Both?
  {
    var c := s.clients[id];
    if Carries(Visible(c), c.className) then
      s.(clients := s.clients[id := Done(c.className, Present(LowestNumber(Visible(c), c.className)))])
    else if s.store.version == c.version then
      System(Store(c.version + 1, c.owned[Key(Chosen(c)) := c.className]), s.namespace,
             s.clients[id := Done(c.className, Added(Chosen(c)))])
    else if c.attempt + 1 < ATTEMPTS then s.(clients := s.clients[id := Client.Ready(c.className, c.attempt + 1)])
    else s.(clients := s.clients[id := Done(c.className, Unavailable)])
  }

  // ---- What every run keeps ----

  /** No class is installed under two of the table's own numbers. */
  ghost predicate OneNumberPerClass(properties: Properties) {
    forall c, d | c in Installed(properties) && d in Installed(properties) && c.className == d.className ::
      c.number == d.number
  }

  /** A client that read the current version read the current properties. */
  ghost predicate Current(c: Client, store: Store) {
    c.Owned? || c.Both? ==> c.version <= store.version && (c.version == store.version ==> c.owned == store.properties)
  }

  ghost predicate Kept(s: System) {
    && OneNumberPerClass(s.store.properties)
    && (forall id | id in s.clients :: Current(s.clients[id], s.store) && ValidClass(s.clients[id].className))
  }

  lemma InstalledRange(properties: Properties)
    ensures forall c | c in Installed(properties) :: 1 <= c.number <= MAX_INT32 && c.className != ""
  {
  }

  lemma InstalledMember(properties: Properties, p: string)
    requires p in properties && NumberOf(p).Some? && properties[p] != ""
    ensures Constraint(properties[p], NumberOf(p).value) in Installed(properties)
  {
  }

  lemma InstalledOf(properties: Properties, c: Constraint) returns (p: string)
    requires c in Installed(properties)
    ensures p in properties && properties[p] == c.className && properties[p] != "" && NumberOf(p) == Some(c.number)
  {
    p :| p in properties && NumberOf(p).Some? && properties[p] != "" &&
         c == Constraint(properties[p], NumberOf(p).value);
  }

  /** Everything the table owns is visible to the call that read it. */
  lemma OwnedIsVisible(c: Client)
    requires c.Both?
    ensures Installed(c.owned) <= Visible(c)
  {
    hide NumberOf;
    var merged := Merge(c.effective, c.owned);
    forall x | x in Installed(c.owned) ensures x in Installed(merged) {
      var p := InstalledOf(c.owned, x);
      assert p in merged && merged[p] == c.owned[p];
      InstalledMember(merged, p);
    }
  }

  /** Setting a property that held no constraint adds at most its own constraint. */
  lemma InstalledAfterSet(properties: Properties, key: string, className: string)
    requires className != "" && (key in properties ==> properties[key] == "" || NumberOf(key).None?)
    ensures Installed(properties[key := className]) ==
            Installed(properties) + (if NumberOf(key).Some? then {Constraint(className, NumberOf(key).value)} else {})
  {
    hide NumberOf;
    var after := properties[key := className];
    var extra := if NumberOf(key).Some? then {Constraint(className, NumberOf(key).value)} else {};
    forall x ensures x in Installed(after) <==> x in Installed(properties) + extra {
      if x in Installed(after) {
        var p := InstalledOf(after, x);
        if p != key { InstalledMember(properties, p); }
      }
      if x in Installed(properties) {
        var p := InstalledOf(properties, x);
        InstalledMember(after, p);
      }
      if x in extra { InstalledMember(after, key); }
    }
  }

  /** The chosen number is free, among the table's own constraints and all the call could see. */
  lemma ChosenIsFree(c: Client)
    requires c.Both?
    ensures Chosen(c) !in Numbers(Visible(c)) && Chosen(c) !in Numbers(Installed(c.owned))
    ensures Chosen(c) <= MAX_INT32 && (Chosen(c) >= 1 || Chosen(c) == MIN_INT32)
    ensures var key := Key(Chosen(c)); key in c.owned ==> c.owned[key] == "" || NumberOf(key).None?
  {
    hide NumberOf, Key;
    InstalledRange(Merge(c.effective, c.owned));
    OwnedIsVisible(c);
    KeyNumber(Chosen(c));
    var key := Key(Chosen(c));
    if key in c.owned && c.owned[key] != "" && NumberOf(key).Some? {
      InstalledMember(c.owned, key);
    }
  }

  /**
   A write that wins its compare-and-set: it adds one constraint, under a number
   nothing installed was using, keeps every constraint that was there, and
   changes no other property.
   */
  lemma WinningWrite(s: System, id: nat)
    requires Kept(s) && id in s.clients && s.clients[id].Both?
    requires !Carries(Visible(s.clients[id]), s.clients[id].className) && s.store.version == s.clients[id].version
    ensures var c, before, after := s.clients[id], s.store.properties, Writes(s, id).store.properties;
            && after == before[Key(Chosen(c)) := c.className]
            && Chosen(c) !in Numbers(Installed(before)) && Chosen(c) !in Numbers(Visible(c))
            && Installed(after) ==
               Installed(before) + (if Chosen(c) >= 1 then {Constraint(c.className, Chosen(c))} else {})
            && (Key(Chosen(c)) in before ==> before[Key(Chosen(c))] == "" || Chosen(c) < 1)
            && OneNumberPerClass(after)
  {
    hide NumberOf, Key, Installed, Visible, Numbers;
    var c := s.clients[id];
    assert Current(c, s.store);
    ChosenIsFree(c);
    KeyNumber(Chosen(c));
    InstalledAfterSet(c.owned, Key(Chosen(c)), c.className);
    OwnedIsVisible(c);
    var added := Constraint(c.className, Chosen(c));
    forall x | x in Installed(c.owned) ensures x.className != c.className {
      assert x in Visible(c);
    }
  }

  lemma RemoveKeeps(properties: Properties, key: string)
    requires OneNumberPerClass(properties)
    ensures OneNumberPerClass(properties - {key}) && Installed(properties - {key}) <= Installed(properties)
  {
    hide NumberOf;
    var after := properties - {key};
    forall x | x in Installed(after) ensures x in Installed(properties) {
      var p := InstalledOf(after, x);
      InstalledMember(properties, p);
    }
  }

  lemma NextKeeps(s: System, a: Action)
    requires Kept(s)
    ensures Kept(Next(s, a))
  {
    hide Installed, Visible, Numbers, Carries, OneNumberPerClass, ValidClass, Key, LowestNumber;
    match a
    case Call(_, _) =>
    case ReadOwned(_) =>
    case ReadEffective(_) =>
    case Abort(_) =>
    case ChangeNamespace(_) =>
    case Remove(number) => RemoveKeeps(s.store.properties, Key(number));
    case Write(id) => WriteKeeps(s, id);
    case LostReply(id) => WriteKeeps(s, id);
  }

  lemma WriteKeeps(s: System, id: nat)
    requires Kept(s)
    ensures id in s.clients && s.clients[id].Both? ==> Kept(Writes(s, id))
  {
    hide Installed, Visible, Numbers, Carries, OneNumberPerClass, ValidClass, Key, LowestNumber;
    if id in s.clients && s.clients[id].Both? {
      var c := s.clients[id];
      if !Carries(Visible(c), c.className) && s.store.version == c.version {
        WinningWrite(s, id);
      }
    }
  }

  ghost function Run(store: Store, namespace: Properties, actions: seq<Action>): System {
    if actions == [] then System(store, namespace, map[])
    else Next(Run(store, namespace, actions[..|actions| - 1]), actions[|actions| - 1])
  }

  /** Whatever the interleaving, no class is ever under two of the table's own numbers. */
  lemma {:induction false} EveryRunKeeps(store: Store, namespace: Properties, actions: seq<Action>)
    requires OneNumberPerClass(store.properties)
    ensures Kept(Run(store, namespace, actions))
  {
    hide Next, Kept, OneNumberPerClass;
    if actions != [] {
      EveryRunKeeps(store, namespace, actions[..|actions| - 1]);
      NextKeeps(Run(store, namespace, actions[..|actions| - 1]), actions[|actions| - 1]);
    } else {
      StartKept(store, namespace);
    }
  }

  lemma StartKept(store: Store, namespace: Properties)
    requires OneNumberPerClass(store.properties)
    ensures Kept(System(store, namespace, map[]))
  {
  }

  /** Only removing its own number ever takes a constraint away, and no step changes the class of one. */
  lemma OnlyRemovalUninstalls(s: System, a: Action, c: Constraint)
    requires Kept(s) && c in Installed(s.store.properties) && c !in Installed(Next(s, a).store.properties)
    ensures a.Remove? && a.number == c.number
  {
    hide Installed, Visible, Numbers, Carries, OneNumberPerClass, ValidClass, Key, LowestNumber, NumberOf;
    if a.Write? || a.LostReply? {
      var id := a.id;
      if id in s.clients && s.clients[id].Both? {
        var client := s.clients[id];
        if !Carries(Visible(client), client.className) && s.store.version == client.version {
          WinningWrite(s, id);
        }
      }
    }
    if a.Remove? && 1 <= a.number <= MAX_INT32 {
      var p := InstalledOf(s.store.properties, c);
      KeyNumber(a.number);
      if p != Key(a.number) { InstalledMember(s.store.properties - {Key(a.number)}, p); }
    }
  }

  // ---- What a removal removes ----

  /** Another property, written with a sign or leading zeros, installs the same number. */
  ghost predicate NamedElsewhere(properties: Properties, number: int) {
    exists p | p in properties && p != Key(number) :: NumberOf(p) == Some(number) && properties[p] != ""
  }

  /** After a removal no constraint of the table's own has the number, unless another property names it too. */
  lemma RemovalRemoves(s: System, number: int)
    requires 1 <= number <= MAX_INT32
    ensures number !in Numbers(Installed(Next(s, Remove(number)).store.properties)) <==>
            !NamedElsewhere(s.store.properties, number)
  {
    hide NumberOf, Key, Installed;
    var before := s.store.properties;
    var after := before - {Key(number)};
    if number in Numbers(Installed(after)) {
      var c :| c in Installed(after) && c.number == number;
      var p := InstalledOf(after, c);
      assert p in before && p != Key(number);
    }
    if p :| p in before && p != Key(number) && NumberOf(p) == Some(number) && before[p] != "" {
      assert p in after;
      InstalledMember(after, p);
      assert Constraint(after[p], number) in Installed(after);
    }
  }

  /** Such a table: a leading zero survives the removal of its number. */
  lemma LeadingZeroSurvives(className: string) returns (s: System)
    requires ValidClass(className)
    ensures Kept(s) && Constraint(className, 1) in Installed(Next(s, Remove(1)).store.properties)
  {
    ParseForms(1);
    var p := PREFIX + ("0" + Format(1));
    assert p[|PREFIX|..] == "0" + Format(1);
    assert Key(1) == PREFIX + Format(1) && |p| == |Key(1)| + 1;
    var properties: Properties := map[p := className];
    s := System(Store(0, properties), map[], map[]);
    InstalledMember(properties - {Key(1)}, p);
    assert forall c | c in Installed(properties) :: c.className == className && c.number == 1;
  }

  /** Every constraint property is named the way AddConstraint names it. */
  ghost predicate Canonical(properties: Properties) {
    forall p | p in properties && NumberOf(p).Some? :: p == Key(NumberOf(p).value)
  }

  lemma NextKeepsCanonical(s: System, a: Action)
    requires Kept(s) && Canonical(s.store.properties)
    ensures Canonical(Next(s, a).store.properties)
  {
    hide Installed, Visible, Numbers, Carries, OneNumberPerClass, Key, NumberOf, LowestNumber;
    if (a.Write? || a.LostReply?) && a.id in s.clients && s.clients[a.id].Both? {
      var c := s.clients[a.id];
      assert Current(c, s.store);
      ChosenIsFree(c);
      KeyNumber(Chosen(c));
    }
  }

  lemma {:induction false} EveryRunIsCanonical(store: Store, namespace: Properties, actions: seq<Action>)
    requires OneNumberPerClass(store.properties) && Canonical(store.properties)
    ensures Canonical(Run(store, namespace, actions).store.properties)
  {
    hide Next, Kept, OneNumberPerClass, Canonical;
    if actions != [] {
      var front := actions[..|actions| - 1];
      EveryRunIsCanonical(store, namespace, front);
      EveryRunKeeps(store, namespace, front);
      NextKeepsCanonical(Run(store, namespace, front), actions[|actions| - 1]);
    }
  }

  /** From a table with canonical names, along every run, a removal leaves its number free. */
  lemma EveryRemovalRemoves(store: Store, namespace: Properties, actions: seq<Action>, number: int)
    requires OneNumberPerClass(store.properties) && Canonical(store.properties) && 1 <= number <= MAX_INT32
    ensures number !in Numbers(Installed(Next(Run(store, namespace, actions), Remove(number)).store.properties))
  {
    hide Run, Next, Installed, NumberOf, Key, OneNumberPerClass;
    EveryRunIsCanonical(store, namespace, actions);
    RemovalRemoves(Run(store, namespace, actions), number);
  }

  // ---- When a write adds a key ----

  /** Every number a constraint can have is visible to the call. */
  ghost predicate AllTaken(c: Client)
    requires c.Both?
  {
    forall k | 1 <= k <= MAX_INT32 :: k in Numbers(Visible(c))
  }

  /** The lowest number not visible to the call has an empty property of the table's own. */
  ghost predicate EmptySlotNext(c: Client)
    requires c.Both?
  {
    exists k | 1 <= k <= MAX_INT32 && k !in Numbers(Visible(c)) && Key(k) in c.owned && c.owned[Key(k)] == "" ::
      forall j | 1 <= j < k :: j in Numbers(Visible(c))
  }

  /**
   A winning write adds exactly one key unless the next number's property is
   there and empty; or, with every number taken, unless the property of the
   number that counting wraps to is there.
   */
  lemma WinningWriteAddsOneKey(s: System, id: nat)
    requires Kept(s) && id in s.clients && s.clients[id].Both?
    requires !Carries(Visible(s.clients[id]), s.clients[id].className) && s.store.version == s.clients[id].version
    ensures var c, before, after := s.clients[id], s.store.properties, Writes(s, id).store.properties;
            |after| == |before| + 1 <==> if AllTaken(c) then Key(MIN_INT32) !in before else !EmptySlotNext(c)
  {
    hide Installed, Visible, Numbers, Carries, OneNumberPerClass, Key, NumberOf;
    var c, before, after := s.clients[id], s.store.properties, Writes(s, id).store.properties;
    var key := Key(Chosen(c));
    assert Current(c, s.store);
    WinningWrite(s, id);
    OneKeyMore(before, key, c.className);
    SlotIsChosen(c);
  }

  lemma OneKeyMore(properties: Properties, key: string, className: string)
    ensures |properties[key := className]| == |properties| + 1 <==> key !in properties
  {
    var after := properties[key := className];
    assert after.Keys == properties.Keys + {key};
    assert |after| == |after.Keys| && |properties| == |properties.Keys|;
  }

  lemma SlotIsChosen(c: Client)
    requires c.Both?
    ensures AllTaken(c) ==> Chosen(c) == MIN_INT32
    ensures !AllTaken(c) ==> Chosen(c) >= 1
    ensures !AllTaken(c) ==>
              (EmptySlotNext(c) <==> Key(Chosen(c)) in c.owned && c.owned[Key(Chosen(c))] == "")
  {
    hide Visible, Numbers, Key;
    var used := Numbers(Visible(c));
    var n := NextFrom(used, 1);
    if n <= MAX_INT32 {
      assert n !in used;
    }
  }

  /** No property names a constraint and is empty. */
  ghost predicate NoEmptyConstraint(properties: Properties) {
    forall p | p in properties && NumberOf(p).Some? :: properties[p] != ""
  }

  lemma NextKeepsNoEmpty(s: System, a: Action)
    requires Kept(s) && NoEmptyConstraint(s.store.properties)
    ensures NoEmptyConstraint(Next(s, a).store.properties)
  {
    hide Installed, Visible, Numbers, Carries, OneNumberPerClass, Key, NumberOf, LowestNumber;
    if a.Write? || a.LostReply? {
      if a.id in s.clients && s.clients[a.id].Both? {
        assert Current(s.clients[a.id], s.store) && ValidClass(s.clients[a.id].className);
      }
    }
  }

  lemma {:induction false} EveryRunHasNoEmpty(store: Store, namespace: Properties, actions: seq<Action>)
    requires OneNumberPerClass(store.properties) && NoEmptyConstraint(store.properties)
    ensures NoEmptyConstraint(Run(store, namespace, actions).store.properties)
  {
    hide Next, Kept, OneNumberPerClass, NoEmptyConstraint;
    if actions != [] {
      var front := actions[..|actions| - 1];
      EveryRunHasNoEmpty(store, namespace, front);
      EveryRunKeeps(store, namespace, front);
      NextKeepsNoEmpty(Run(store, namespace, front), actions[|actions| - 1]);
    }
  }

  /**
   A table that starts without empty constraint properties: along every run,
   every winning write under a positive number adds exactly one key.
   */
  lemma EveryWinningWriteAddsOneKey(store: Store, namespace: Properties, actions: seq<Action>, id: nat)
    requires OneNumberPerClass(store.properties) && NoEmptyConstraint(store.properties)
    requires var s := Run(store, namespace, actions);
             && id in s.clients && s.clients[id].Both? && s.store.version == s.clients[id].version
             && !Carries(Visible(s.clients[id]), s.clients[id].className) && !AllTaken(s.clients[id])
    ensures var s := Run(store, namespace, actions);
            |Writes(s, id).store.properties| == |s.store.properties| + 1
  {
    hide Run, Writes, Visible, Numbers, Carries, OneNumberPerClass, Key, NumberOf;
    var s := Run(store, namespace, actions);
    EveryRunHasNoEmpty(store, namespace, actions);
    EveryRunKeeps(store, namespace, actions);
    WinningWriteAddsOneKey(s, id);
    var c := s.clients[id];
    assert Current(c, s.store);
    if k :| 1 <= k <= MAX_INT32 && Key(k) in c.owned && c.owned[Key(k)] == "" {
      KeyNumber(k);
    }
  }

  /** An empty constraint property is such a case: the write replaces it. */
  lemma EmptyPropertyIsReplaced(className: string) returns (s: System)
    requires ValidClass(className)
    ensures Kept(s) && s.clients == map[0 := Both(className, 0, 0, s.store.properties, s.store.properties)]
    ensures s.store.version == 0 && !Carries(Visible(s.clients[0]), className)
    ensures |Writes(s, 0).store.properties| == |s.store.properties| == 1
  {
    var properties: Properties := map[Key(1) := ""];
    var c := Both(className, 0, 0, properties, properties);
    s := System(Store(0, properties), map[], map[0 := c]);
    hide NumberOf, Key;
    assert Installed(properties) == {};
    assert Merge(properties, properties) == properties;
    assert Visible(c) == {} && Numbers({}) == {};
    assert NextFrom({}, 1) == 1 && Chosen(c) == 1;
    assert Writes(s, 0).store.properties == map[Key(1) := className];
  }

  // ---- AddConstraint as one client runs it ----

  datatype WriteReply = Accepted | Conflict | WriteError

  /** What one attempt meets: the two reads and the answer to the write. */
  datatype Reply = Reply(
    ownedFails: bool, version: nat, owned: Properties, effectiveFails: bool, effective: Properties, write: WriteReply)

  /** The client of the protocol after both reads of an attempt. */
  function Informed(className: string, attempt: nat, reply: Reply): (c: Client)
    ensures c.Both?
  {
    Both(className, attempt, reply.version, reply.owned, reply.effective)
  }

  /** The store the protocol's write would leave. */
  function Proposal(className: string, attempt: nat, reply: Reply): Store {
    Store(reply.version, reply.owned[Key(Chosen(Informed(className, attempt, reply))) := className])
  }

  /** What an attempt decides from its reads is what the protocol's step decides. */
  method Decide(className: string, attempt: nat, reply: Reply) returns (number: int, found: bool)
    ensures var c := Informed(className, attempt, reply);
            && (found <==> Carries(Visible(c), className))
            && (found ==> number == LowestNumber(Visible(c), className))
            && (!found ==> number == Chosen(c))
  {
    hide Installed, Merge, LowestNumber, NextFrom;
    var merged := Merge(reply.effective, reply.owned);
    var visible := ParseConstraints(merged);
    number, found := ConstraintNumberOf(visible, className);
    ghost var all := set c | c in visible;
    assert all == Visible(Informed(className, attempt, reply));
    assert found <==> Carries(all, className);
    if !found {
      InstalledRange(merged);
      assert forall c | c in visible :: c in all;
      number := NextConstraintNumber(visible);
      assert (set c | c in visible :: c.number) == Numbers(all);
    }
  }

  /** One of the two reads of an attempt fails, or the context has ended before it. */
  predicate ReadFails(replies: seq<Reply>, attempt: nat)
    requires attempt <= |replies|
  {
    attempt == |replies| || replies[attempt].ownedFails || replies[attempt].effectiveFails
  }

  /**
   `AddConstraint`: every write but the last met a conflict, every write
   proposes exactly what the protocol's step would, and each outcome is the one
   the last attempt's reads and answer imply. Replies that run out are a
   context that ended.
   */
  method AddConstraint(className: string, replies: seq<Reply>) returns (outcome: Outcome, writes: seq<Store>)
    ensures |writes| <= ATTEMPTS && |writes| <= |replies|
    ensures !ValidClass(className) ==> outcome == Failed && writes == []
    ensures forall k | 0 <= k < |writes| :: writes[k] == Proposal(className, k, replies[k])
    ensures forall k | 0 <= k < |writes| :: !Carries(Visible(Informed(className, k, replies[k])), className)
    ensures forall k | 0 <= k < |writes| - 1 :: replies[k].write == Conflict
    ensures outcome.Added? ==>
              var k := |writes| - 1;
              0 <= k && replies[k].write == Accepted && outcome.number == Chosen(Informed(className, k, replies[k]))
    ensures outcome.Present? ==>
              var k := |writes|;
              && k < |replies| && Carries(Visible(Informed(className, k, replies[k])), className)
              && outcome.number == LowestNumber(Visible(Informed(className, k, replies[k])), className)
    ensures outcome.Unavailable? ==> |writes| == ATTEMPTS && replies[ATTEMPTS - 1].write == Conflict
    ensures writes != [] && replies[|writes| - 1].write == Accepted ==> outcome.Added?
    ensures outcome.Failed? && ValidClass(className) ==>
              || (writes != [] && replies[|writes| - 1].write == WriteError)
              || (|writes| < ATTEMPTS && ReadFails(replies, |writes|))
  {
    hide Visible, Chosen, LowestNumber, Key, Carries, ValidClass;
    writes := [];
    if !ValidClass(className) {
      return Failed, writes;
    }
    var attempt := 0;
    while attempt < ATTEMPTS
      invariant attempt <= ATTEMPTS && |writes| == attempt <= |replies|
      invariant forall k | 0 <= k < |writes| ::
                  && writes[k] == Proposal(className, k, replies[k]) && replies[k].write == Conflict
                  && !Carries(Visible(Informed(className, k, replies[k])), className)
    {
      if ReadFails(replies, attempt) {
        return Failed, writes;
      }
      var reply := replies[attempt];
      var number, found := Decide(className, attempt, reply);
      if found {
        return Present(number), writes;
      }
      var next := reply.owned[Key(number) := className];
      writes := writes + [Store(reply.version, next)];
      match reply.write
      case Accepted => return Added(number), writes;
      case WriteError => return Failed, writes;
      case Conflict => attempt := attempt + 1;
    }
    outcome := Unavailable;
  }
}
