/**
 The visibility evaluator: an uncached answer, a cache of answers guarded by a
 generation counter, and any number of `Evaluate` calls interleaved with
 `SetAuthorizations`. `Evaluate` holds the lock twice, once to look up and once
 to store, so it is two steps of the protocol.
 */
module VisibilityEvaluator {
  import opened Wrappers
  import opened Bytes
  import opened VisibilityTree
  import opened VisibilityParser
  import opened VisibilityGrammar
  import opened DecisionCache

  const CAPACITY: int := 1024

  type Answer = Result<bool, ParseError>

  /** What `Evaluate` answers with no cache at all. */
  function Uncached(expression: Row, auths: set<Row>): Answer {
    if expression == [] then Ok(true)
    else
      var root :- Parse(expression);
      Evaluate(expression, root, auths)
  }

  // ---- The protocol ----

  /** A call between its two critical sections, with what it read in the first. */
  datatype Call = Call(expression: Row, auths: set<Row>, generation: nat)

  /** An answer given, and the authorizations in force when its call first held the lock. */
  datatype Answered = Answered(expression: Row, auths: set<Row>, answer: Answer)

  datatype System = System(
    auths: set<Row>,
    generation: nat,
    cache: seq<Decision>,
    calls: map<nat, Call>,
    answers: seq<Answered>)

  datatype Action =
    | Begin(caller: nat, expression: Row)
    | Finish(caller: nat)
    | SetAuthorizations(auths: set<Row>)

  function Start(auths: set<Row>): System { System(auths, 1, [], map[], []) }

  /** One atomic step; a step that is not enabled changes nothing. */
  function Next(s: System, a: Action): System {
    match a
    case SetAuthorizations(auths) => s.(auths := auths, generation := s.generation + 1, cache := [])
    case Begin(caller, expression) =>
      if caller in s.calls then s
      else if expression == [] then s.(answers := s.answers + [Answered([], s.auths, Ok(true))])
      else
        var cached := Find(s.cache, expression);
        if cached.Some? then
          s.(cache := Touch(s.cache, expression),
             answers := s.answers + [Answered(expression, s.auths, Ok(cached.value))])
        else s.(calls := s.calls[caller := Call(expression, s.auths, s.generation)])
    case Finish(caller) =>
      if caller !in s.calls then s
      else
        var call := s.calls[caller];
        var answer := Uncached(call.expression, call.auths);
        s.(calls := s.calls - {caller},
           cache := if answer.Ok? && s.generation == call.generation
                    then Store(s.cache, CAPACITY, call.expression, answer.value) else s.cache,
           answers := s.answers + [Answered(call.expression, call.auths, answer)])
  }

  function Run(auths: set<Row>, actions: seq<Action>): System {
    if actions == [] then Start(auths)
    else Next(Run(auths, actions[..|actions| - 1]), actions[|actions| - 1])
  }

  // ---- What every run keeps ----

  /** Every cached decision is the uncached answer under the given labels. */
  predicate Coherent(cache: seq<Decision>, auths: set<Row>) {
    forall d | d in cache :: Uncached(d.key, auths) == Ok(d.value)
  }

  ghost predicate Sound(s: System) {
    && Coherent(s.cache, s.auths)
    && Distinct(s.cache) && |s.cache| <= CAPACITY
    && (forall c | c in s.calls :: s.calls[c].generation <= s.generation)
    && (forall c | c in s.calls && s.calls[c].generation == s.generation :: s.calls[c].auths == s.auths)
    && (forall i | 0 <= i < |s.answers| ::
          s.answers[i].answer == Uncached(s.answers[i].expression, s.answers[i].auths))
  }

  lemma TouchKeeps(cache: seq<Decision>, key: Row, auths: set<Row>)
    requires Coherent(cache, auths) && Distinct(cache) && |cache| <= CAPACITY
    ensures Coherent(Touch(cache, key), auths) && Distinct(Touch(cache, key)) && |Touch(cache, key)| <= CAPACITY
    ensures Find(cache, key).Some? ==> Uncached(key, auths) == Ok(Find(cache, key).value)
  {
    hide Uncached, Find, Without;
    FindIndex(cache, key);
    TouchIsRecencyPrefix(cache, CAPACITY, key);
    if k :| 0 <= k < |cache| && cache[k].key == key {
      WithoutAt(cache, k);
      assert Touch(cache, key) == [cache[k]] + DropAt(cache, k);
    }
  }

  lemma StoreKeeps(cache: seq<Decision>, key: Row, value: bool, auths: set<Row>)
    requires Coherent(cache, auths) && Distinct(cache) && |cache| <= CAPACITY && Uncached(key, auths) == Ok(value)
    ensures var after := Store(cache, CAPACITY, key, value);
            Coherent(after, auths) && Distinct(after) && |after| <= CAPACITY
  {
    hide Uncached, Find, Without, Trim;
    FindIndex(cache, key);
    StoreIsRecencyPrefix(cache, CAPACITY, key, value);
    TrimIsPrefix(cache, CAPACITY);
    if k :| 0 <= k < |cache| && cache[k].key == key {
      WithoutAt(cache, k);
    }
  }

  lemma NextKeepsSound(s: System, a: Action)
    requires Sound(s)
    ensures Sound(Next(s, a))
  {
    hide Uncached, Find, Touch, Store;
    match a
    case SetAuthorizations(_) =>
    case Begin(caller, expression) =>
      TouchKeeps(s.cache, expression, s.auths);
      assert Uncached([], s.auths) == Ok(true) by { EmptyAnswer(s.auths); }
    case Finish(caller) =>
      if caller in s.calls {
        var call := s.calls[caller];
        var answer := Uncached(call.expression, call.auths);
        if answer.Ok? && s.generation == call.generation {
          StoreKeeps(s.cache, call.expression, answer.value, s.auths);
        }
      }
  }

  lemma EmptyAnswer(auths: set<Row>)
    ensures Uncached([], auths) == Ok(true)
  {
  }

  /**
   For every interleaving: cached entries equal the uncached answer under the
   current authorizations, and every answer given is the uncached answer under
   the authorizations in force when its call began.
   */
  lemma {:induction false} EveryRunIsSound(auths: set<Row>, actions: seq<Action>)
    ensures Sound(Run(auths, actions))
  {
    if actions != [] {
      EveryRunIsSound(auths, actions[..|actions| - 1]);
      NextKeepsSound(Run(auths, actions[..|actions| - 1]), actions[|actions| - 1]);
    }
  }

  /** The labels set last. */
  function InForce(auths: set<Row>, actions: seq<Action>): set<Row> {
    if actions == [] then auths
    else
      match actions[|actions| - 1]
      case SetAuthorizations(labels) => labels
      case _ => InForce(auths, actions[..|actions| - 1])
  }

  /** Some call for the expression began while these labels were in force. */
  ghost predicate BegunUnder(auths: set<Row>, actions: seq<Action>, expression: Row, labels: set<Row>) {
    exists k | 0 <= k < |actions| :: BeginsAt(auths, actions, k, expression, labels)
  }

  predicate BeginsAt(auths: set<Row>, actions: seq<Action>, k: nat, expression: Row, labels: set<Row>)
    requires k < |actions|
  {
    actions[k].Begin? && actions[k].expression == expression && labels == InForce(auths, actions[..k])
  }

  lemma BegunEarlier(auths: set<Row>, actions: seq<Action>, expression: Row, labels: set<Row>)
    requires actions != [] && BegunUnder(auths, actions[..|actions| - 1], expression, labels)
    ensures BegunUnder(auths, actions, expression, labels)
  {
    var front := actions[..|actions| - 1];
    var k :| 0 <= k < |front| && BeginsAt(auths, front, k, expression, labels);
    assert front[..k] == actions[..k];
    assert BeginsAt(auths, actions, k, expression, labels);
  }

  /**
   The labels an answer is recorded under are those in force when a call for
   its expression began, so every answer is the uncached one at its beginning.
   */
  lemma {:induction false} AnswersAsBegun(auths: set<Row>, actions: seq<Action>)
    ensures var s := Run(auths, actions);
            && s.auths == InForce(auths, actions)
            && (forall c | c in s.calls :: BegunUnder(auths, actions, s.calls[c].expression, s.calls[c].auths))
            && (forall i | 0 <= i < |s.answers| ::
                  && BegunUnder(auths, actions, s.answers[i].expression, s.answers[i].auths)
                  && s.answers[i].answer == Uncached(s.answers[i].expression, s.answers[i].auths))
  {
    hide Uncached, Find, Touch, Store, BegunUnder;
    EveryRunIsSound(auths, actions);
    if actions != [] {
      var front, last := actions[..|actions| - 1], actions[|actions| - 1];
      AnswersAsBegun(auths, front);
      var before, after := Run(auths, front), Run(auths, actions);
      if last.Begin? {
        BeginsLast(auths, actions);
      }
      forall c | c in after.calls ensures BegunUnder(auths, actions, after.calls[c].expression, after.calls[c].auths) {
        if c in before.calls { BegunEarlier(auths, actions, before.calls[c].expression, before.calls[c].auths); }
      }
      forall i | 0 <= i < |after.answers|
        ensures BegunUnder(auths, actions, after.answers[i].expression, after.answers[i].auths)
      {
        if i < |before.answers| {
          BegunEarlier(auths, actions, before.answers[i].expression, before.answers[i].auths);
        } else if last.Finish? {
          BegunEarlier(auths, actions, before.calls[last.caller].expression, before.calls[last.caller].auths);
        }
      }
    }
  }

  lemma BeginsLast(auths: set<Row>, actions: seq<Action>)
    requires actions != [] && actions[|actions| - 1].Begin?
    ensures var front, last := actions[..|actions| - 1], actions[|actions| - 1];
            BegunUnder(auths, actions, last.expression, InForce(auths, front))
  {
    var k := |actions| - 1;
    assert BeginsAt(auths, actions, k, actions[k].expression, InForce(auths, actions[..k]));
  }

  /** A call that finishes under the labels it began with leaves its answer in the cache. */
  lemma FinishCaches(s: System, caller: nat)
    requires Sound(s) && caller in s.calls && s.calls[caller].generation == s.generation
    requires Uncached(s.calls[caller].expression, s.auths).Ok?
    ensures Find(Next(s, Finish(caller)).cache, s.calls[caller].expression) ==
            Some(Uncached(s.calls[caller].expression, s.auths).value)
  {
    hide Uncached, Without, Trim;
  }

  /** A cached expression is answered in the first critical section. */
  lemma CachedAnswersAtOnce(s: System, caller: nat, expression: Row)
    requires Sound(s) && caller !in s.calls && expression != [] && Find(s.cache, expression).Some?
    ensures var after := Next(s, Begin(caller, expression));
            && after.calls == s.calls
            && after.answers == s.answers + [Answered(expression, s.auths, Uncached(expression, s.auths))]
  {
    hide Uncached, Find, Touch;
    TouchKeeps(s.cache, expression, s.auths);
  }

  /** Uncached answers are errors exactly for expressions outside the grammar. */
  lemma UncachedErrsOnlyOutsideGrammar(expression: Row, auths: set<Row>)
    ensures Uncached(expression, auths).Ok? <==>
            expression == [] || exists c :: WellFormed(c) && Render(c) == expression
  {
    if expression != [] {
      ParserAcceptsExactlyTheGrammar(expression);
      if Parse(expression).Ok? {
        var _ := ParsedSyntax(expression);
        EvaluateIsHolds(expression, Parse(expression).value, auths);
      }
    }
  }

  /** Any label can be asked for in quotes, each backslash and quote escaped. */
  lemma QuotedAnswers(name: Row, auths: set<Row>)
    requires name != []
    ensures Uncached([QUOTE] + Escape(name) + [QUOTE], auths) == Ok(name in auths)
  {
    UnescapeEscape(name);
    EvaluationIsDenotation(Quoted(Escape(name)), auths);
  }

  lemma WordAnswers(name: Row, auths: set<Row>)
    requires IsWord(name)
    ensures Uncached(name, auths) == Ok(name in auths)
  {
    EvaluationIsDenotation(Word(name), auths);
  }

  // ---- The evaluator as the source keeps it ----

  class Evaluator {
    var auths: set<Row>
    var generation: nat
    var cache: Cache

    ghost predicate Valid()
      reads this, cache, cache.order
    {
      && cache.Valid() && cache.capacity == CAPACITY
      && Coherent(cache.View(), auths) && Distinct(cache.View()) && |cache.View()| <= CAPACITY
    }

    constructor (labels: set<Row>)
      ensures Valid() && auths == labels && generation == 1 && cache.View() == []
      ensures fresh(cache) && cache.order == []
    {
      auths := labels;
      generation := 1;
      cache := new Cache(CAPACITY);
    }

    method SetAuthorizations(labels: set<Row>)
      modifies this
      ensures Valid() && auths == labels && generation == old(generation) + 1 && cache.View() == []
      ensures fresh(cache) && cache.order == []
    {
      auths := labels;
      generation := generation + 1;
      cache := new Cache(CAPACITY);
    }

    /** The first critical section of `Evaluate`. */
    method Lookup(expression: Row) returns (value: bool, hit: bool, labels: set<Row>, current: nat)
      requires Valid()
      modifies cache
      ensures Valid() && cache.View() == Touch(old(cache.View()), expression)
      ensures hit <==> Find(old(cache.View()), expression).Some?
      ensures hit ==> Uncached(expression, auths) == Ok(value)
      ensures labels == auths && current == generation
      ensures forall e | e in cache.order :: e in old(cache.order)
    {
      hide Uncached, Find, Touch;
      TouchKeeps(cache.View(), expression, auths);
      value, hit := cache.Get(expression);
      labels, current := auths, generation;
    }

    /** The second critical section: stores only what the current labels still imply. */
    method Remember(expression: Row, value: bool, labels: set<Row>, current: nat)
      requires Valid() && Uncached(expression, labels) == Ok(value)
      requires current == generation ==> labels == auths
      modifies cache, cache.order
      ensures Valid()
      ensures cache.View() == if current == generation
                              then Store(old(cache.View()), CAPACITY, expression, value) else old(cache.View())
      ensures forall e | e in cache.order :: e in old(cache.order) || fresh(e)
    {
      hide Uncached, Store;
      if generation == current {
        StoreKeeps(cache.View(), expression, value, auths);
        cache.Put(expression, value);
      }
    }

    /** A whole call with nothing in between. */
    method EvaluateExpression(expression: Row) returns (answer: Answer)
      requires Valid()
      modifies cache, cache.order
      ensures Valid() && answer == Uncached(expression, auths)
    {
      hide Find, Touch, Store, Evaluate;
      if expression == [] {
        return Ok(true);
      }
      var value, hit, labels, current := Lookup(expression);
      if hit {
        return Ok(value);
      }
      var root :- NewColumnVisibility(expression);
      value :- Evaluate(expression, root, labels);
      Remember(expression, value, labels, current);
      return Ok(value);
    }
  }
}
