/** The list of event receivers by priority, and dispatching an event along it. */
module Dispatch {
  import opened Bytes
  import opened Decimal

  /** Receivers are told apart by the order of their creation. */
  datatype Receiver = Receiver(id: nat, priority: nat)

  datatype Registry = Registry(list: seq<Receiver>, created: nat)

  datatype Op = Create(priority: nat) | Destroy(id: nat)

  /** Where a new receiver goes: in front of the first that has at least its priority. */
  function Place(list: seq<Receiver>, priority: nat): (i: nat)
    ensures i <= |list| && (i < |list| ==> list[i].priority >= priority)
    ensures forall j :: 0 <= j < i ==> list[j].priority < priority
  {
    if list == [] || list[0].priority >= priority then 0 else 1 + Place(list[1..], priority)
  }

  function Inserted(list: seq<Receiver>, r: Receiver): seq<Receiver> {
    var i := Place(list, r.priority);
    list[..i] + [r] + list[i..]
  }

  /** The first receiver with this identity is taken out. */
  function Erased(list: seq<Receiver>, id: nat): seq<Receiver> {
    if list == [] then [] else if list[0].id == id then list[1..] else [list[0]] + Erased(list[1..], id)
  }

  lemma ErasedStep(head: Receiver, tail: seq<Receiver>, id: nat)
    ensures Erased([head] + tail, id) == if head.id == id then tail else [head] + Erased(tail, id)
  {
    assert ([head] + tail)[1..] == tail;
  }

  function Step(reg: Registry, op: Op): Registry {
    match op
    case Create(p) => Registry(Inserted(reg.list, Receiver(reg.created, p)), reg.created + 1)
    case Destroy(id) => reg.(list := Erased(reg.list, id))
  }

  function Run(reg: Registry, ops: seq<Op>): Registry
    decreases ops
  {
    if ops == [] then reg else Run(Step(reg, ops[0]), ops[1..])
  }

  const NOBODY := Registry([], 0)

  /** Ascending by priority, and the newest first among equals. */
  ghost predicate Before(a: Receiver, b: Receiver) {
    a.priority < b.priority || (a.priority == b.priority && a.id > b.id)
  }

  ghost predicate Ordered(list: seq<Receiver>) {
    forall i, j :: 0 <= i < j < |list| ==> Before(list[i], list[j]) && list[i].id != list[j].id
  }

  ghost predicate Valid(reg: Registry) {
    Ordered(reg.list) && forall r <- reg.list :: r.id < reg.created
  }

  ghost predicate Precedes(r: Receiver, list: seq<Receiver>) {
    forall j :: 0 <= j < |list| ==> Before(r, list[j]) && r.id != list[j].id
  }

  lemma OrderedCons(head: Receiver, tail: seq<Receiver>)
    requires Ordered(tail) && Precedes(head, tail)
    ensures Ordered([head] + tail)
  {
    var list := [head] + tail;
    forall i, j | 0 <= i < j < |list|
      ensures Before(list[i], list[j]) && list[i].id != list[j].id
    {
      assert list[j] == tail[j - 1];
      assert i > 0 ==> list[i] == tail[i - 1];
    }
  }

  lemma OrderedTail(head: Receiver, tail: seq<Receiver>)
    requires Ordered([head] + tail)
    ensures Ordered(tail) && Precedes(head, tail)
  {
    var list := [head] + tail;
    forall i, j | 0 <= i < j < |tail|
      ensures Before(tail[i], tail[j]) && tail[i].id != tail[j].id
    {
      assert Before(list[i + 1], list[j + 1]) && list[i + 1].id != list[j + 1].id;
    }
    forall j | 0 <= j < |tail|
      ensures Before(head, tail[j]) && head.id != tail[j].id
    {
      assert Before(list[0], list[j + 1]) && list[0].id != list[j + 1].id;
    }
  }

  /** Inserting in front of a part of the list that starts with at least the priority. */
  lemma PrecedesRest(r: Receiver, list: seq<Receiver>)
    requires Ordered(list) && (forall o <- list :: o.id < r.id) && (list != [] ==> list[0].priority >= r.priority)
    ensures Precedes(r, list)
  {
    forall j | 0 <= j < |list|
      ensures Before(r, list[j]) && r.id != list[j].id
    {
      assert list[j] in list;
      if j > 0 {
        assert Before(list[0], list[j]);
      }
    }
  }

  lemma InsertedCons(head: Receiver, tail: seq<Receiver>, r: Receiver)
    ensures Inserted([head] + tail, r)
         == if head.priority >= r.priority then [r] + ([head] + tail) else [head] + Inserted(tail, r)
  {
    var k := Place(tail, r.priority);
    assert ([head] + tail)[1..] == tail;
    assert ([head] + tail)[..k + 1] == [head] + tail[..k] && ([head] + tail)[k + 1..] == tail[k..];
  }

  lemma {:induction false} InsertedIsOrdered(list: seq<Receiver>, r: Receiver)
    requires Ordered(list) && forall o <- list :: o.id < r.id
    ensures Ordered(Inserted(list, r))
    ensures forall o :: o in Inserted(list, r) <==> o in list || o == r
  {
    if list == [] {
      assert Inserted(list, r) == [r];
    } else {
      var head, tail := list[0], list[1..];
      assert list == [head] + tail;
      OrderedTail(head, tail);
      InsertedCons(head, tail, r);
      if head.priority >= r.priority {
        PrecedesRest(r, list);
        OrderedCons(r, list);
      } else {
        InsertedIsOrdered(tail, r);
        var rest := Inserted(tail, r);
        assert Precedes(head, rest) by {
          PrecedesMembers(head, tail, r, rest);
        }
        OrderedCons(head, rest);
      }
    }
  }

  lemma PrecedesMembers(head: Receiver, tail: seq<Receiver>, r: Receiver, rest: seq<Receiver>)
    requires Precedes(head, tail) && Before(head, r) && head.id != r.id && forall o <- rest :: o in tail || o == r
    ensures Precedes(head, rest)
  {
    forall j | 0 <= j < |rest|
      ensures Before(head, rest[j]) && head.id != rest[j].id
    {
      assert rest[j] in rest;
    }
  }

  lemma {:induction false} ErasedIsOrdered(list: seq<Receiver>, id: nat)
    requires Ordered(list)
    ensures Ordered(Erased(list, id))
    ensures forall o :: o in Erased(list, id) <==> o in list && o.id != id
  {
    if list != [] {
      var head, tail := list[0], list[1..];
      assert list == [head] + tail;
      OrderedTail(head, tail);
      ErasedIsOrdered(tail, id);
      if head.id == id {
        assert forall o <- tail :: o.id != id;
      } else {
        var rest := Erased(tail, id);
        assert Precedes(head, rest) by {
          forall j | 0 <= j < |rest|
            ensures Before(head, rest[j]) && head.id != rest[j].id
          {
            assert rest[j] in tail;
          }
        }
        OrderedCons(head, rest);
      }
    }
  }

  ghost function StepAlive(alive: set<Receiver>, created: nat, op: Op): set<Receiver> {
    match op
    case Create(p) => alive + {Receiver(created, p)}
    case Destroy(id) => set r | r in alive && r.id != id
  }

  /** The receivers that were created and not destroyed since. */
  ghost function Alive(alive: set<Receiver>, created: nat, ops: seq<Op>): set<Receiver>
    decreases ops
  {
    if ops == [] then alive
    else Alive(StepAlive(alive, created, ops[0]), if ops[0].Create? then created + 1 else created, ops[1..])
  }

  ghost function Members(list: seq<Receiver>): set<Receiver> {
    set r | r in list
  }

  lemma StepKeepsOrder(reg: Registry, op: Op)
    requires Valid(reg)
    ensures Valid(Step(reg, op))
    ensures Members(Step(reg, op).list) == StepAlive(Members(reg.list), reg.created, op)
  {
    match op
    case Create(p) => InsertedIsOrdered(reg.list, Receiver(reg.created, p));
    case Destroy(id) => ErasedIsOrdered(reg.list, id);
  }

  /** Over any run the list holds exactly the living receivers, in order. */
  lemma {:induction false} RunKeepsOrder(reg: Registry, ops: seq<Op>)
    requires Valid(reg)
    ensures Valid(Run(reg, ops))
    ensures Members(Run(reg, ops).list) == Alive(Members(reg.list), reg.created, ops)
    decreases ops
  {
    if ops != [] {
      StepKeepsOrder(reg, ops[0]);
      RunKeepsOrder(Step(reg, ops[0]), ops[1..]);
    }
  }

  lemma HeadsAgree(a: seq<Receiver>, b: seq<Receiver>)
    requires Ordered(a) && Ordered(b) && Members(a) == Members(b) && a != [] && b != []
    ensures a[0] == b[0]
  {
    assert a[0] in Members(b) && b[0] in Members(a);
    var i, j :| 0 <= i < |b| && b[i] == a[0] && 0 <= j < |a| && a[j] == b[0];
    HeadIsBefore(b, i);
    HeadIsBefore(a, j);
  }

  /** There is only one such list, so the order of dispatch is determined by who is alive. */
  lemma {:induction false} OrderIsUnique(a: seq<Receiver>, b: seq<Receiver>)
    requires Ordered(a) && Ordered(b) && Members(a) == Members(b)
    ensures a == b
    decreases |a|
  {
    NoMembers(a);
    NoMembers(b);
    if a != [] {
      HeadsAgree(a, b);
      TailMembers(a);
      TailMembers(b);
      OrderIsUnique(a[1..], b[1..]);
      assert a == [a[0]] + a[1..] && b == [b[0]] + b[1..];
    }
  }

  lemma HeadIsBefore(a: seq<Receiver>, i: nat)
    requires Ordered(a) && i < |a|
    ensures i == 0 || Before(a[0], a[i])
  {
  }

  lemma NoMembers(list: seq<Receiver>)
    ensures Members(list) == {} <==> list == []
  {
    if list != [] {
      assert list[0] in Members(list);
    }
  }

  lemma TailMembers(a: seq<Receiver>)
    requires Ordered(a) && a != []
    ensures Ordered(a[1..]) && Members(a[1..]) == Members(a) - {a[0]}
  {
    var tail := a[1..];
    assert a == [a[0]] + tail;
    OrderedTail(a[0], tail);
    forall r | r in tail
      ensures r != a[0]
    {
      var j :| 0 <= j < |tail| && tail[j] == r;
      assert a[0].id != tail[j].id;
    }
  }

  // ---- dispatch --------------------------------------------------------------------------------

  function FirstAnswer<R>(list: seq<Receiver>, answer: Receiver -> Option<R>): Option<R> {
    if list == [] then None
    else if answer(list[0]).Some? then answer(list[0])
    else FirstAnswer(list[1..], answer)
  }

  ghost predicate IsPosition(list: seq<Receiver>, r: Receiver, i: nat) {
    i < |list| && list[i] == r && r !in list[..i]
  }

  /** After a receiver that is not in the list there is nobody left to ask. */
  function Rest(list: seq<Receiver>, from: Option<Receiver>): seq<Receiver> {
    match from
    case None => list
    case Some(r) => if list == [] then [] else if list[0] == r then list[1..] else Rest(list[1..], from)
  }

  function Process<R>(list: seq<Receiver>, from: Option<Receiver>, answer: Receiver -> Option<R>): Option<R> {
    FirstAnswer(Rest(list, from), answer)
  }

  lemma {:induction false} RestIsAfter(list: seq<Receiver>, r: Receiver)
    ensures r !in list ==> Rest(list, Some(r)) == []
    ensures forall i: nat :: IsPosition(list, r, i) ==> Rest(list, Some(r)) == list[i + 1..]
  {
    if list != [] {
      RestIsAfter(list[1..], r);
      assert list == [list[0]] + list[1..];
      forall i: nat | IsPosition(list, r, i)
        ensures Rest(list, Some(r)) == list[i + 1..]
      {
        if i > 0 {
          assert list[0] == list[..i][0] && forall o <- list[1..][..i - 1] :: o in list[..i];
          assert IsPosition(list[1..], r, i - 1);
          assert list[1..][i..] == list[i + 1..];
        }
      }
    }
  }

  lemma {:induction false} FirstAnswerSplits<R>(a: seq<Receiver>, b: seq<Receiver>, answer: Receiver -> Option<R>)
    ensures FirstAnswer(a + b, answer) == if FirstAnswer(a, answer).Some? then FirstAnswer(a, answer) else FirstAnswer(b, answer)
  {
    if a == [] {
      assert a + b == b;
    } else {
      FirstAnswerSplits(a[1..], b, answer);
      assert (a + b)[1..] == a[1..] + b;
    }
  }

  /** The places after `from`; all of them when there is none. */
  ghost predicate After(list: seq<Receiver>, from: Option<Receiver>, i: nat) {
    i < |list| && (from.None? || exists k: nat :: k < i && list[k] == from.value)
  }

  /** The receiver at `i` comes after `from` and answers `a`, and nobody between them answers. */
  ghost predicate FirstAnswersAt<R>(list: seq<Receiver>, from: Option<Receiver>, answer: Receiver -> Option<R>, a: R, i: nat) {
    && After(list, from, i) && answer(list[i]) == Some(a)
    && forall j: nat :: After(list, from, j) && j < i ==> answer(list[j]).None?
  }

  lemma AfterCons(list: seq<Receiver>, from: Option<Receiver>, i: nat)
    requires 0 < i < |list|
    ensures After(list, from, i) <==> After(list[1..], if from == Some(list[0]) then None else from, i - 1)
  {
    if from.Some? && list[0] != from.value && After(list, from, i) {
      var k: nat :| k < i && list[k] == from.value;
      assert list[1..][k - 1] == from.value;
    }
  }

  /** Going on behind a receiver that is passed over, or gives no answer. */
  lemma FirstAnswerCons<R>(list: seq<Receiver>, from: Option<Receiver>, answer: Receiver -> Option<R>, a: R, i: nat)
    requires 0 < i < |list| && (from.None? ==> answer(list[0]).None?)
    ensures FirstAnswersAt(list, from, answer, a, i)
       <==> FirstAnswersAt(list[1..], if from == Some(list[0]) then None else from, answer, a, i - 1)
  {
    var tail, from' := list[1..], if from == Some(list[0]) then None else from;
    AfterCons(list, from, i);
    forall j: nat | 0 < j < |list|
      ensures list[j] == tail[j - 1] && (After(list, from, j) <==> After(tail, from', j - 1))
    {
      AfterCons(list, from, j);
    }
    if FirstAnswersAt(list, from, answer, a, i) {
      forall j: nat | After(tail, from', j) && j < i - 1
        ensures answer(tail[j]).None?
      {
        assert list[j + 1] == tail[j] && After(list, from, j + 1);
      }
    }
  }

  lemma ProcessCons<R>(list: seq<Receiver>, from: Option<Receiver>, answer: Receiver -> Option<R>)
    requires list != [] && (from.None? ==> answer(list[0]).None?)
    ensures Process(list, from, answer) == Process(list[1..], if from == Some(list[0]) then None else from, answer)
  {
  }

  /** Dispatch finds exactly the first answer after `from`. */
  lemma {:induction false} ProcessFindsFirstAnswer<R>(list: seq<Receiver>, from: Option<Receiver>,
                                                      answer: Receiver -> Option<R>, a: R)
    ensures Process(list, from, answer) == Some(a) <==> exists i: nat :: FirstAnswersAt(list, from, answer, a, i)
    decreases list
  {
    if list != [] {
      if from.None? && answer(list[0]).Some? {
        assert After(list, from, 0);
        assert answer(list[0]) == Some(a) ==> FirstAnswersAt(list, from, answer, a, 0);
      } else {
        var tail, from' := list[1..], if from == Some(list[0]) then None else from;
        ProcessCons(list, from, answer);
        ProcessFindsFirstAnswer(tail, from', answer, a);
        assert !FirstAnswersAt(list, from, answer, a, 0);
        forall i: nat | 0 < i < |list|
          ensures FirstAnswersAt(list, from, answer, a, i) <==> FirstAnswersAt(tail, from', answer, a, i - 1)
        {
          FirstAnswerCons(list, from, answer, a, i);
        }
        if i: nat :| FirstAnswersAt(tail, from', answer, a, i) {
          assert FirstAnswersAt(list, from, answer, a, i + 1);
        }
      }
    }
  }

  /** There is no answer exactly when nobody after `from` has one. */
  lemma {:induction false} NoAnswerMeansNobody<R>(list: seq<Receiver>, from: Option<Receiver>, answer: Receiver -> Option<R>)
    ensures Process(list, from, answer) == None <==> forall i: nat :: After(list, from, i) ==> answer(list[i]).None?
    decreases list
  {
    if list != [] {
      if from.None? && answer(list[0]).Some? {
        assert After(list, from, 0);
      } else {
        var tail, from' := list[1..], if from == Some(list[0]) then None else from;
        ProcessCons(list, from, answer);
        NoAnswerMeansNobody(tail, from', answer);
        forall i: nat | 0 < i < |list|
          ensures After(list, from, i) <==> After(tail, from', i - 1)
        {
          AfterCons(list, from, i);
        }
        forall i: nat | i < |tail|
          ensures tail[i] == list[i + 1] && (After(tail, from', i) <==> After(list, from, i + 1))
        {
        }
      }
    }
  }

  /** Asking everyone up to `from`, and then resuming after it, is one full dispatch. */
  lemma ResumptionCompletesDispatch<R>(list: seq<Receiver>, i: nat, answer: Receiver -> Option<R>)
    requires Ordered(list) && i < |list|
    ensures var here := Process(list[..i + 1], None, answer);
            Process(list, None, answer) == if here.Some? then here else Process(list, Some(list[i]), answer)
    ensures Process(list, Some(list[i]), answer) == Process(list[i + 1..], None, answer)
  {
    assert IsPosition(list, list[i], i) by {
      forall j | 0 <= j < i
        ensures list[j] != list[i]
      {
      }
    }
    RestIsAfter(list, list[i]);
    assert list == list[..i + 1] + list[i + 1..];
    FirstAnswerSplits(list[..i + 1], list[i + 1..], answer);
  }

  /** A stranger as the starting point gets no answer. */
  lemma StrangerGetsNoAnswer<R>(list: seq<Receiver>, r: Receiver, answer: Receiver -> Option<R>)
    ensures r !in list ==> Process(list, Some(r), answer) == None
  {
    RestIsAfter(list, r);
  }

  // ---- the list itself -------------------------------------------------------------------------

  class Receivers {
    /** False until the list is initialised. */
    var present: bool
    var list: seq<Receiver>
    var created: nat

    ghost function View(): Registry
      reads this
    {
      Registry(list, created)
    }

    constructor ()
      ensures !present && View() == NOBODY
    {
      present, list, created := false, [], 0;
    }

    method InitList()
      modifies this
      ensures present && list == [] && created == old(created)
    {
      present, list := true, [];
    }

    /** The constructor of a receiver. */
    method Add(priority: nat) returns (r: Receiver)
      requires present
      modifies this
      ensures present && View() == Step(old(View()), Create(priority))
      ensures r == Receiver(old(created), priority)
    {
      r := Receiver(created, priority);
      var it := 0;
      while it < |list|
        invariant 0 <= it <= |list| && View() == old(View()) && present
        invariant Place(list, priority) == it + Place(list[it..], priority)
      {
        if list[it].priority >= priority {
          break;
        }
        it := it + 1;
        assert list[it - 1..][1..] == list[it..];
      }
      list := list[..it] + [r] + list[it..];
      created := created + 1;
    }

    /** The destructor of a receiver. */
    method Remove(id: nat)
      requires present
      modifies this
      ensures present && View() == Step(old(View()), Destroy(id))
    {
      ghost var before := list;
      for it := 0 to |list|
        invariant list == before && present && created == old(created)
        invariant Erased(before, id) == before[..it] + Erased(before[it..], id)
      {
        assert before[it..] == [before[it]] + before[it + 1..];
        if list[it].id == id {
          list := list[..it] + list[it + 1..];
          return;
        }
        ErasedStep(before[it], before[it + 1..], id);
        assert before[..it] + [before[it]] == before[..it + 1];
        Shift(before[..it], [before[it]], Erased(before[it + 1..], id));
      }
      assert before[..|before|] + [] == before;
    }

    method ProcessEvent<R>(from: Option<Receiver>, answer: Receiver -> Option<R>) returns (res: Option<R>)
      ensures res == if present then Process(list, from, answer) else None
    {
      if !present {
        return None;
      }
      var it := 0;
      if from.Some? {
        var found := false;
        while it < |list| && !found
          invariant 0 <= it <= |list|
          invariant if found then Rest(list, from) == list[it..] else Rest(list, from) == Rest(list[it..], from)
          decreases |list| - it
        {
          assert list[it..][1..] == list[it + 1..];
          found := list[it] == from.value;
          it := it + 1;
        }
      }
      assert Rest(list, from) == list[it..];
      while it < |list|
        invariant 0 <= it <= |list|
        invariant FirstAnswer(Rest(list, from), answer) == FirstAnswer(list[it..], answer)
      {
        res := answer(list[it]);
        if res.Some? {
          return;
        }
        it := it + 1;
        assert list[it - 1..][1..] == list[it..];
      }
      return None;
    }
  }
}
