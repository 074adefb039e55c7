/**
 Normalization of visibility trees: roll up children of the parent's type,
 sort, remove duplicates, collapse an operator left with one child.
 */
module VisibilityNormal {
  import opened Bytes
  import opened VisibilityTree

  // ---- The order on expressions ----

  function Rank(t: Expr): int {
    match t
    case Nothing => 0
    case Leaf(_) => 1
    case Join(isAnd, _) => if isAnd then 3 else 2
  }

  /** What `CompareNodes` computes, on the expressions the nodes stand for. */
  function Order(a: Expr, b: Expr): int
    decreases a
  {
    if Rank(a) != Rank(b) then Rank(a) - Rank(b)
    else if a.Nothing? then 0
    else if a.Leaf? then Compare(a.raw, b.raw)
    else if |a.kids| != |b.kids| then |a.kids| - |b.kids|
    else OrderAll(a.kids, b.kids)
  }

  function OrderAll(a: seq<Expr>, b: seq<Expr>): int
    requires |a| == |b|
    decreases a
  {
    if a == [] then 0
    else
      var diff := Order(a[0], b[0]);
      if diff != 0 then diff else OrderAll(a[1..], b[1..])
  }

  lemma {:induction false} CompareIsOrder(left: Node, right: Node)
    ensures CompareNodes(left, right) == Order(Shape(left), Shape(right))
    decreases left, 1
  {
    if left.Op? && right.Op? && |left.children| == |right.children| {
      CompareAllIsOrder(left.children, right.children);
      assert Shape(left).kids == Shapes(left.children) && Shape(right).kids == Shapes(right.children);
    }
  }

  lemma {:induction false} CompareAllIsOrder(left: seq<Node>, right: seq<Node>)
    requires |left| == |right|
    ensures CompareChildren(left, right) == OrderAll(Shapes(left), Shapes(right))
    decreases left, 0
  {
    if left != [] {
      CompareIsOrder(left[0], right[0]);
      CompareAllIsOrder(left[1..], right[1..]);
      assert Shapes(left)[1..] == Shapes(left[1..]) && Shapes(right)[1..] == Shapes(right[1..]);
    }
  }

  lemma {:induction false} OrderEqual(a: Expr, b: Expr)
    ensures Order(a, b) == 0 <==> a == b
    decreases a, 1
  {
    if a.Leaf? && b.Leaf? {
      CompareEqual(a.raw, b.raw);
    } else if a.Join? && b.Join? && |a.kids| == |b.kids| {
      OrderAllEqual(a.kids, b.kids);
    }
  }

  lemma {:induction false} OrderAllEqual(a: seq<Expr>, b: seq<Expr>)
    requires |a| == |b|
    ensures OrderAll(a, b) == 0 <==> a == b
    decreases a, 0
  {
    if a != [] {
      OrderEqual(a[0], b[0]);
      OrderAllEqual(a[1..], b[1..]);
      assert a == [a[0]] + a[1..] && b == [b[0]] + b[1..];
    }
  }

  /** No expression first, then terms by their bytes, then any-of, then all-of, each by its number of children. */
  lemma OrderDecides(a: Expr, b: Expr)
    ensures a.Nothing? && !b.Nothing? ==> Order(a, b) < 0
    ensures a.Leaf? && b.Leaf? ==> Order(a, b) == Compare(a.raw, b.raw)
    ensures a.Leaf? && b.Join? ==> Order(a, b) < 0
    ensures a.Join? && b.Join? && !a.isAnd && b.isAnd ==> Order(a, b) < 0
    ensures a.Join? && b.Join? && a.isAnd == b.isAnd && |a.kids| < |b.kids| ==> Order(a, b) < 0
  {
  }

  /** Between operators of one kind and size the first child that differs decides. */
  lemma OrderByFirstDifference(a: Expr, b: Expr, i: nat)
    requires a.Join? && b.Join? && a.isAnd == b.isAnd && i < |a.kids| == |b.kids|
    requires a.kids[..i] == b.kids[..i] && a.kids[i] != b.kids[i]
    ensures Order(a, b) == Order(a.kids[i], b.kids[i])
  {
    AllByFirstDifference(a.kids, b.kids, i);
  }

  lemma {:induction false} AllByFirstDifference(a: seq<Expr>, b: seq<Expr>, i: nat)
    requires i < |a| == |b| && a[..i] == b[..i] && a[i] != b[i]
    ensures OrderAll(a, b) == Order(a[i], b[i])
  {
    OrderEqual(a[0], b[0]);
    if i > 0 {
      assert a[..i][0] == b[..i][0];
      assert a[1..][..i - 1] == a[..i][1..] && b[1..][..i - 1] == b[..i][1..];
      AllByFirstDifference(a[1..], b[1..], i - 1);
    }
  }

  lemma {:induction false} OrderAntisymmetric(a: Expr, b: Expr)
    ensures Order(a, b) == -Order(b, a)
    decreases a, 1
  {
    if a.Leaf? && b.Leaf? {
      CompareAntisymmetric(a.raw, b.raw);
    } else if a.Join? && b.Join? && |a.kids| == |b.kids| {
      OrderAllAntisymmetric(a.kids, b.kids);
    }
  }

  lemma {:induction false} OrderAllAntisymmetric(a: seq<Expr>, b: seq<Expr>)
    requires |a| == |b|
    ensures OrderAll(a, b) == -OrderAll(b, a)
    decreases a, 0
  {
    if a != [] {
      OrderAntisymmetric(a[0], b[0]);
      OrderAllAntisymmetric(a[1..], b[1..]);
    }
  }

  lemma {:induction false} OrderTransitive(a: Expr, b: Expr, c: Expr)
    requires Order(a, b) <= 0 && Order(b, c) <= 0
    ensures Order(a, c) <= 0
    ensures Order(a, b) < 0 || Order(b, c) < 0 ==> Order(a, c) < 0
    decreases a, 1
  {
    if a.Leaf? && b.Leaf? && c.Leaf? {
      CompareTransitive(a.raw, b.raw, c.raw);
    } else if a.Join? && b.Join? && c.Join? && |a.kids| == |b.kids| == |c.kids| {
      if Rank(a) == Rank(b) == Rank(c) {
        OrderAllTransitive(a.kids, b.kids, c.kids);
      }
    }
  }

  lemma {:induction false} OrderAllTransitive(a: seq<Expr>, b: seq<Expr>, c: seq<Expr>)
    requires |a| == |b| == |c| && OrderAll(a, b) <= 0 && OrderAll(b, c) <= 0
    ensures OrderAll(a, c) <= 0
    ensures OrderAll(a, b) < 0 || OrderAll(b, c) < 0 ==> OrderAll(a, c) < 0
    decreases a, 0
  {
    if a != [] {
      OrderTransitive(a[0], b[0], c[0]);
      if Order(a[0], b[0]) == 0 && Order(b[0], c[0]) == 0 {
        OrderEqual(a[0], b[0]);
        OrderEqual(b[0], c[0]);
        OrderAllTransitive(a[1..], b[1..], c[1..]);
        OrderEqual(a[0], c[0]);
      }
    }
  }

  // ---- Sorting and removing duplicates ----

  /** Inserts after every element not greater than `x`, as a stable sort does. */
  function Insert(x: Expr, s: seq<Expr>): seq<Expr> {
    if s == [] || Order(s[|s| - 1], x) <= 0 then s + [x]
    else Insert(x, s[..|s| - 1]) + [s[|s| - 1]]
  }

  function Sort(s: seq<Expr>): seq<Expr> {
    if s == [] then [] else Insert(s[|s| - 1], Sort(s[..|s| - 1]))
  }

  /** Drops an element equal to the last one kept. */
  function Dedup(s: seq<Expr>): seq<Expr> {
    if s == [] then []
    else
      var kept := Dedup(s[..|s| - 1]);
      if kept != [] && Order(kept[|kept| - 1], s[|s| - 1]) == 0 then kept else kept + [s[|s| - 1]]
  }

  function Members(s: seq<Expr>): set<Expr> { set x | x in s }

  predicate Ascending(s: seq<Expr>) { forall i, j | 0 <= i < j < |s| :: Order(s[i], s[j]) <= 0 }

  predicate StrictlyAscending(s: seq<Expr>) { forall i, j | 0 <= i < j < |s| :: Order(s[i], s[j]) < 0 }

  lemma MembersSnoc(s: seq<Expr>, x: Expr)
    ensures Members(s + [x]) == Members(s) + {x}
  {
  }

  lemma MembersEmpty(s: seq<Expr>)
    ensures Members(s) == {} <==> s == []
  {
    if s != [] { assert s[0] in Members(s); }
  }

  lemma {:induction false} InsertMembers(x: Expr, s: seq<Expr>)
    ensures Members(Insert(x, s)) == Members(s) + {x}
  {
    MembersSnoc(s, x);
    if s != [] && Order(s[|s| - 1], x) > 0 {
      var last, front := s[|s| - 1], s[..|s| - 1];
      assert s == front + [last];
      InsertMembers(x, front);
      MembersSnoc(Insert(x, front), last);
      MembersSnoc(front, last);
    }
  }

  lemma {:induction false} InsertAscends(x: Expr, s: seq<Expr>)
    requires Ascending(s)
    ensures Ascending(Insert(x, s))
  {
    if s != [] {
      var last, front := s[|s| - 1], s[..|s| - 1];
      if Order(last, x) <= 0 {
        forall i | 0 <= i < |s| ensures Order(s[i], x) <= 0 {
          if i < |s| - 1 { OrderTransitive(s[i], last, x); }
        }
      } else {
        InsertAscends(x, front);
        InsertMembers(x, front);
        OrderAntisymmetric(last, x);
        var inserted := Insert(x, front);
        forall i | 0 <= i < |inserted| ensures Order(inserted[i], last) <= 0 {
          assert inserted[i] in Members(inserted);
        }
      }
    }
  }

  lemma {:induction false} SortKeeps(s: seq<Expr>)
    ensures Ascending(Sort(s)) && Members(Sort(s)) == Members(s)
  {
    if s != [] {
      SortKeeps(s[..|s| - 1]);
      InsertAscends(s[|s| - 1], Sort(s[..|s| - 1]));
      InsertMembers(s[|s| - 1], Sort(s[..|s| - 1]));
      assert s == s[..|s| - 1] + [s[|s| - 1]];
      MembersSnoc(s[..|s| - 1], s[|s| - 1]);
    }
  }

  lemma {:induction false} DedupMembers(s: seq<Expr>)
    ensures Members(Dedup(s)) == Members(s)
    ensures s != [] ==> Dedup(s) != [] && Dedup(s)[|Dedup(s)| - 1] == s[|s| - 1]
  {
    if s != [] {
      var last, front := s[|s| - 1], s[..|s| - 1];
      assert s == front + [last];
      DedupMembers(front);
      MembersSnoc(front, last);
      var kept := Dedup(front);
      MembersSnoc(kept, last);
      if kept != [] {
        OrderEqual(kept[|kept| - 1], last);
        assert kept[|kept| - 1] in Members(kept);
      }
    }
  }

  lemma {:induction false} DedupAscends(s: seq<Expr>)
    requires Ascending(s)
    ensures StrictlyAscending(Dedup(s))
  {
    hide Order;
    if s != [] {
      var last, front := s[|s| - 1], s[..|s| - 1];
      DedupAscends(front);
      DedupMembers(front);
      var kept := Dedup(front);
      if front != [] {
        var top := front[|front| - 1];
        assert Order(top, last) <= 0;
        OrderEqual(top, last);
        forall i | 0 <= i < |kept| && top != last ensures Order(kept[i], last) < 0 {
          if i < |kept| - 1 { OrderTransitive(kept[i], top, last); }
        }
      }
    }
  }

  /** The canonical list of a collection of expressions. */
  function Canon(s: seq<Expr>): seq<Expr> { Dedup(Sort(s)) }

  lemma CanonKeeps(s: seq<Expr>)
    ensures StrictlyAscending(Canon(s)) && Members(Canon(s)) == Members(s)
  {
    SortKeeps(s);
    DedupMembers(Sort(s));
    DedupAscends(Sort(s));
  }

  /** A set has only one strictly ascending listing. */
  lemma {:induction false} AscendingUnique(a: seq<Expr>, b: seq<Expr>)
    requires StrictlyAscending(a) && StrictlyAscending(b) && Members(a) == Members(b)
    ensures a == b
  {
    MembersEmpty(a);
    MembersEmpty(b);
    if a != [] {
      FirstIsLeast(a, b);
      RestMembers(a);
      RestMembers(b);
      AscendingUnique(a[1..], b[1..]);
      assert a == [a[0]] + a[1..] && b == [b[0]] + b[1..];
    }
  }

  lemma FirstIsLeast(a: seq<Expr>, b: seq<Expr>)
    requires StrictlyAscending(a) && StrictlyAscending(b) && Members(a) == Members(b) && a != [] && b != []
    ensures a[0] == b[0]
  {
    assert a[0] in Members(b) && b[0] in Members(a);
    var i :| 0 <= i < |b| && b[i] == a[0];
    var j :| 0 <= j < |a| && a[j] == b[0];
    if i > 0 && j > 0 {
      assert Order(b[0], b[i]) < 0 && Order(a[0], a[j]) < 0;
      OrderAntisymmetric(a[0], b[0]);
    }
  }

  lemma RestMembers(a: seq<Expr>)
    requires StrictlyAscending(a) && a != []
    ensures StrictlyAscending(a[1..]) && Members(a[1..]) == Members(a) - {a[0]}
  {
    OrderEqual(a[0], a[0]);
    assert forall i | 1 <= i < |a| :: a[i] == a[1..][i - 1];
    assert forall i | 1 <= i < |a| :: a[i] != a[0];
  }

  // ---- Normalization ----

  /** The children a normalized child contributes to its parent. */
  function Spread(isAnd: bool, t: Expr): seq<Expr> {
    if t.Join? && t.isAnd == isAnd then t.kids else [t]
  }

  function Normal(t: Expr): Expr
    decreases t
  {
    match t
    case Nothing => t
    case Leaf(_) => t
    case Join(isAnd, kids) => Collapse(isAnd, Canon(Rolled(isAnd, kids)))
  }

  function Rolled(isAnd: bool, kids: seq<Expr>): seq<Expr>
    decreases kids
  {
    if kids == [] then [] else Rolled(isAnd, kids[..|kids| - 1]) + Spread(isAnd, Normal(kids[|kids| - 1]))
  }

  function Collapse(isAnd: bool, kids: seq<Expr>): Expr {
    if |kids| == 1 then kids[0] else Join(isAnd, kids)
  }

  /** At least two strictly ascending children, none of the parent's type, all the way down. */
  predicate NormalForm(t: Expr) {
    match t
    case Nothing => false
    case Leaf(_) => true
    case Join(isAnd, kids) =>
      && |kids| >= 2 && StrictlyAscending(kids)
      && forall i | 0 <= i < |kids| :: NormalForm(kids[i]) && !(kids[i].Join? && kids[i].isAnd == isAnd)
  }

  /** What a child may be once rolled up into an operator of type `isAnd`. */
  predicate RolledChild(isAnd: bool, t: Expr) {
    ValidExpr(t) && NormalForm(t) && !(t.Join? && t.isAnd == isAnd)
  }

  lemma {:induction false} RolledMembers(isAnd: bool, kids: seq<Expr>, x: Expr)
    ensures x in Rolled(isAnd, kids) <==> exists i | 0 <= i < |kids| :: x in Spread(isAnd, Normal(kids[i]))
  {
    hide Normal, Spread;
    if kids != [] {
      var last, front := kids[|kids| - 1], kids[..|kids| - 1];
      RolledMembers(isAnd, front, x);
      assert forall i | 0 <= i < |front| :: front[i] == kids[i];
    }
  }

  /** Normalizing a parsed tree gives a well-formed tree in normal form. */
  lemma {:induction false} NormalReachesNormalForm(t: Expr)
    requires ValidExpr(t)
    ensures NormalForm(Normal(t)) && ValidExpr(Normal(t))
    decreases t, 1
  {
    hide Rolled, Canon, StrictlyAscending;
    match t
    case Leaf(_) =>
    case Join(isAnd, kids) =>
      var rolled := Rolled(isAnd, kids);
      forall x | x in rolled ensures RolledChild(isAnd, x) {
        RolledMembers(isAnd, kids, x);
        var i :| 0 <= i < |kids| && x in Spread(isAnd, Normal(kids[i]));
        NormalReachesNormalForm(kids[i]);
      }
      RolledNotEmpty(isAnd, kids);
      CanonKeeps(rolled);
      var unique := Canon(rolled);
      assert rolled[0] in Members(unique);
      forall i | 0 <= i < |unique| ensures RolledChild(isAnd, unique[i]) {
        assert unique[i] in Members(rolled);
      }
  }

  lemma RolledNotEmpty(isAnd: bool, kids: seq<Expr>)
    requires kids != [] && forall i | 0 <= i < |kids| :: ValidExpr(kids[i])
    ensures Rolled(isAnd, kids) != []
    decreases kids, 0
  {
    var last := kids[|kids| - 1];
    NormalReachesNormalForm(last);
    assert Spread(isAnd, Normal(last)) != [];
  }

  /** A tree in normal form is left exactly as it is, so normalization is idempotent. */
  lemma {:induction false} NormalFixesNormalForm(t: Expr)
    requires NormalForm(t)
    ensures Normal(t) == t
    decreases t, 1
  {
    if t.Join? {
      RolledFixes(t.isAnd, t.kids);
      CanonKeeps(t.kids);
      AscendingUnique(Canon(t.kids), t.kids);
    }
  }

  lemma {:induction false} RolledFixes(isAnd: bool, kids: seq<Expr>)
    requires forall i | 0 <= i < |kids| :: NormalForm(kids[i]) && !(kids[i].Join? && kids[i].isAnd == isAnd)
    ensures Rolled(isAnd, kids) == kids
    decreases kids, 0
  {
    if kids != [] {
      NormalFixesNormalForm(kids[|kids| - 1]);
      RolledFixes(isAnd, kids[..|kids| - 1]);
    }
  }

  lemma NormalIdempotent(t: Expr)
    requires ValidExpr(t)
    ensures Normal(Normal(t)) == Normal(t)
  {
    NormalReachesNormalForm(t);
    NormalFixesNormalForm(Normal(t));
  }

  /** An operator's meaning depends only on the set of its children. */
  lemma HoldsBySet(isAnd: bool, a: seq<Expr>, b: seq<Expr>, auths: set<Row>)
    requires Members(a) == Members(b)
    ensures Holds(Join(isAnd, a), auths) <==> Holds(Join(isAnd, b), auths)
  {
    assert forall x :: x in a <==> x in Members(a);
    assert forall x :: x in b <==> x in Members(b);
    HoldsByMembers(isAnd, a, auths);
    HoldsByMembers(isAnd, b, auths);
  }

  lemma HoldsByMembers(isAnd: bool, kids: seq<Expr>, auths: set<Row>)
    ensures isAnd ==> (Holds(Join(isAnd, kids), auths) <==> forall x | x in kids :: Holds(x, auths))
    ensures !isAnd ==> (Holds(Join(isAnd, kids), auths) <==> exists x | x in kids :: Holds(x, auths))
  {
    var t := Join(isAnd, kids);
    assert isAnd ==> (Holds(t, auths) <==> forall i | 0 <= i < |kids| :: Holds(kids[i], auths));
    assert !isAnd ==> (Holds(t, auths) <==> exists i | 0 <= i < |kids| :: Holds(kids[i], auths));
    assert forall i | 0 <= i < |kids| :: kids[i] in kids;
    if x :| x in kids && Holds(x, auths) {
      var i :| 0 <= i < |kids| && kids[i] == x;
      assert Holds(kids[i], auths);
    }
  }

  /** Normalization keeps the meaning, for every set of authorizations. */
  lemma {:induction false} NormalKeepsMeaning(t: Expr, auths: set<Row>)
    ensures Holds(Normal(t), auths) <==> Holds(t, auths)
    decreases t, 1
  {
    match t
    case Nothing =>
    case Leaf(_) =>
    case Join(isAnd, kids) =>
      var rolled := Rolled(isAnd, kids);
      RolledKeepsMeaning(isAnd, kids, auths);
      CanonKeeps(rolled);
      HoldsBySet(isAnd, Canon(rolled), rolled, auths);
      if |Canon(rolled)| == 1 {
        HoldsByMembers(isAnd, Canon(rolled), auths);
      }
  }

  lemma {:induction false} RolledKeepsMeaning(isAnd: bool, kids: seq<Expr>, auths: set<Row>)
    ensures Holds(Join(isAnd, Rolled(isAnd, kids)), auths) <==> Holds(Join(isAnd, kids), auths)
    decreases kids, 0
  {
    hide Normal, Holds;
    if kids != [] {
      var last, front := kids[|kids| - 1], kids[..|kids| - 1];
      RolledKeepsMeaning(isAnd, front, auths);
      NormalKeepsMeaning(last, auths);
      var spread := Spread(isAnd, Normal(last));
      HoldsConcat(isAnd, Rolled(isAnd, front), spread, auths);
      HoldsConcat(isAnd, front, [last], auths);
      assert front + [last] == kids;
      HoldsByMembers(isAnd, [last], auths);
      HoldsByMembers(isAnd, [Normal(last)], auths);
    }
  }

  lemma HoldsConcat(isAnd: bool, a: seq<Expr>, b: seq<Expr>, auths: set<Row>)
    ensures Holds(Join(isAnd, a + b), auths) <==>
            if isAnd then Holds(Join(isAnd, a), auths) && Holds(Join(isAnd, b), auths)
            else Holds(Join(isAnd, a), auths) || Holds(Join(isAnd, b), auths)
  {
    HoldsByMembers(isAnd, a, auths);
    HoldsByMembers(isAnd, b, auths);
    HoldsByMembers(isAnd, a + b, auths);
    assert forall x :: x in a + b <==> x in a || x in b;
  }

  /** The normal forms of the children, as a set. */
  ghost function Normals(kids: seq<Expr>): set<Expr> { set i | 0 <= i < |kids| :: Normal(kids[i]) }

  /** The normal form depends on the set of the children's normal forms alone. */
  lemma NormalBySet(isAnd: bool, a: seq<Expr>, b: seq<Expr>)
    requires Normals(a) == Normals(b)
    ensures Normal(Join(isAnd, a)) == Normal(Join(isAnd, b))
  {
    var ra, rb := Rolled(isAnd, a), Rolled(isAnd, b);
    forall x ensures x in ra <==> x in rb {
      RolledMembers(isAnd, a, x);
      RolledMembers(isAnd, b, x);
      if i :| 0 <= i < |a| && x in Spread(isAnd, Normal(a[i])) {
        assert Normal(a[i]) in Normals(b);
      }
      if i :| 0 <= i < |b| && x in Spread(isAnd, Normal(b[i])) {
        assert Normal(b[i]) in Normals(a);
      }
    }
    assert Members(ra) == Members(rb);
    CanonKeeps(ra);
    CanonKeeps(rb);
    AscendingUnique(Canon(ra), Canon(rb));
  }

  /** The same expression up to the order and the repetition of children, at every depth. */
  ghost predicate Rearranged(s: Expr, t: Expr)
    decreases s, 0
  {
    if !s.Join? then s == t
    else
      && t.Join? && t.isAnd == s.isAnd
      && (forall i | 0 <= i < |s.kids| :: FoundIn(s.kids[i], t.kids))
      && (forall j | 0 <= j < |t.kids| :: MadeFrom(s.kids, t.kids[j]))
  }

  ghost predicate FoundIn(kid: Expr, others: seq<Expr>)
    decreases kid, 1
  {
    exists j | 0 <= j < |others| :: Rearranged(kid, others[j])
  }

  ghost predicate MadeFrom(kids: seq<Expr>, other: Expr)
    decreases kids, 1
  {
    exists i | 0 <= i < |kids| :: Rearranged(kids[i], other)
  }

  lemma MatchOf(s: Expr, t: Expr, i: nat) returns (j: nat)
    requires Rearranged(s, t) && s.Join? && i < |s.kids|
    ensures t.Join? && j < |t.kids| && Rearranged(s.kids[i], t.kids[j])
  {
    assert FoundIn(s.kids[i], t.kids);
    j :| 0 <= j < |t.kids| && Rearranged(s.kids[i], t.kids[j]);
  }

  lemma MatchFor(s: Expr, t: Expr, j: nat) returns (i: nat)
    requires Rearranged(s, t) && s.Join? && t.Join? && j < |t.kids|
    ensures i < |s.kids| && Rearranged(s.kids[i], t.kids[j])
  {
    assert MadeFrom(s.kids, t.kids[j]);
    i :| 0 <= i < |s.kids| && Rearranged(s.kids[i], t.kids[j]);
  }

  lemma SameKind(s: Expr, t: Expr)
    requires Rearranged(s, t)
    ensures if s.Join? then t.Join? && t.isAnd == s.isAnd else s == t
  {
  }

  /** Permuting or repeating children, at any depth, does not change the normal form. */
  lemma {:induction false} NormalIgnoresOrderAndRepeats(s: Expr, t: Expr)
    requires Rearranged(s, t)
    ensures Normal(s) == Normal(t)
    decreases s
  {
    hide Normal, Rearranged;
    SameKind(s, t);
    if s.Join? {
      forall i | 0 <= i < |s.kids| ensures Normal(s.kids[i]) in Normals(t.kids) {
        var j := MatchOf(s, t, i);
        NormalIgnoresOrderAndRepeats(s.kids[i], t.kids[j]);
      }
      forall j | 0 <= j < |t.kids| ensures Normal(t.kids[j]) in Normals(s.kids) {
        var i := MatchFor(s, t, j);
        NormalIgnoresOrderAndRepeats(s.kids[i], t.kids[j]);
      }
      NormalBySet(s.isAnd, s.kids, t.kids);
    }
  }

  lemma {:induction false} RearrangedSelf(t: Expr)
    ensures Rearranged(t, t)
    decreases t
  {
    if t.Join? {
      forall i | 0 <= i < |t.kids| ensures FoundIn(t.kids[i], t.kids) && MadeFrom(t.kids, t.kids[i]) {
        RearrangedSelf(t.kids[i]);
      }
    }
  }

  /** Children in any order, each any number of times. */
  lemma SameChildrenRearranged(isAnd: bool, a: seq<Expr>, b: seq<Expr>)
    requires Members(a) == Members(b)
    ensures Rearranged(Join(isAnd, a), Join(isAnd, b))
  {
    forall i | 0 <= i < |a| ensures FoundIn(a[i], b) {
      assert a[i] in Members(b);
      RearrangedSelf(a[i]);
    }
    forall j | 0 <= j < |b| ensures MadeFrom(a, b[j]) {
      assert b[j] in Members(a);
      RearrangedSelf(b[j]);
    }
  }
}
