/**
 The two schedule lists of kernel/yield/Yield.c.  yield takes from the front of list
 `point` and puts back at the end of the other one, changing over when a list is
 empty: together the two lists are one queue.
 */
module Schedule {

  datatype Lists = Lists(list0: seq<int>, list1: seq<int>, point: int)

  function ListAt(q: Lists, p: int): seq<int> { if p == 0 then q.list0 else q.list1 }

  function SetList(q: Lists, p: int, l: seq<int>): Lists {
    if p == 0 then q.(list0 := l) else q.(list1 := l)
  }

  ghost predicate PointOk(q: Lists) { q.point == 0 || q.point == 1 }

  /** The threads in the order in which yield will examine them. */
  function Queue(q: Lists): seq<int> { ListAt(q, q.point) + ListAt(q, 1 - q.point) }

  function PutBack(q: Lists, t: int): Lists {
    SetList(q, 1 - q.point, ListAt(q, 1 - q.point) + [t])
  }

  function ChangeOver(q: Lists): Lists {
    if ListAt(q, q.point) == [] then q.(point := 1 - q.point) else q
  }

  function TakeFirst(q: Lists): Lists
    requires ListAt(q, q.point) != []
  {
    SetList(q, q.point, ListAt(q, q.point)[1..])
  }

  lemma QueuePutBack(q: Lists, t: int)
    requires PointOk(q)
    ensures Queue(PutBack(q, t)) == Queue(q) + [t] && PointOk(PutBack(q, t))
  {
  }

  lemma QueueChangeOver(q: Lists)
    requires PointOk(q)
    ensures Queue(ChangeOver(q)) == Queue(q) && PointOk(ChangeOver(q))
    ensures ListAt(ChangeOver(q), ChangeOver(q).point) == [] <==> Queue(q) == []
  {
  }

  lemma QueueTakeFirst(q: Lists)
    requires PointOk(q) && ListAt(q, q.point) != []
    ensures Queue(q) == [ListAt(q, q.point)[0]] + Queue(TakeFirst(q)) && PointOk(TakeFirst(q))
  {
  }

  /** A new thread is put at the end of list 0, wherever that lies in the queue. */
  function Forked(q: Lists, t: int): Lists { q.(list0 := q.list0 + [t]) }

  lemma QueueForked(q: Lists, t: int)
    requires PointOk(q)
    ensures PointOk(Forked(q, t))
    ensures exists k :: 0 <= k <= |Queue(q)| && Queue(Forked(q, t)) == Queue(q)[..k] + [t] + Queue(q)[k..]
  {
    var k := if q.point == 0 then |q.list0| else |Queue(q)|;
    assert Queue(Forked(q, t)) == Queue(q)[..k] + [t] + Queue(q)[k..];
  }

  // ---------- one turn after another ----------

  /** The queue after n turns in which the first thread goes to the end. */
  function Rotate(q: seq<int>, n: nat): (r: seq<int>)
    ensures |r| == |q|
  {
    if n == 0 || q == [] then q
    else
      var r := Rotate(q, n - 1);
      r[1..] + [r[0]]
  }

  lemma {:induction false} RotateSame(q: seq<int>, n: nat)
    ensures multiset(Rotate(q, n)) == multiset(q)
  {
    if n > 0 && q != [] {
      RotateSame(q, n - 1);
      var r := Rotate(q, n - 1);
      assert r == [r[0]] + r[1..];
    }
  }

  // ---------- how long a thread waits ----------

  /** What happens to the queue: its first thread is taken and examined (and `back` put at the end before that, if
      a thread was running), or a thread is forked. */
  datatype Event = Turn(back: seq<int>) | Fork(t: int)

  ghost predicate Happens(q: Lists, e: Event, q': Lists) {
    match e
    case Turn(back) => |back| <= 1 && Queue(q) + back != [] && Queue(q') == (Queue(q) + back)[1..]
    case Fork(t) => q' == Forked(q, t)
  }

  ghost predicate Run(qs: seq<Lists>, es: seq<Event>) {
    && |qs| == |es| + 1 && (forall i :: 0 <= i < |qs| ==> PointOk(qs[i]))
    && forall i :: 0 <= i < |es| ==> Happens(qs[i], es[i], qs[i + 1])
  }

  function Turns(es: seq<Event>): nat {
    if es == [] then 0 else Turns(es[..|es| - 1]) + if es[|es| - 1].Turn? then 1 else 0
  }

  function Forks(es: seq<Event>): nat {
    if es == [] then 0 else Forks(es[..|es| - 1]) + if es[|es| - 1].Fork? then 1 else 0
  }

  /** One event moves a waiting thread one place forward, or at most one back if it is a fork. */
  lemma OneEvent(q: Lists, e: Event, q': Lists, p: int)
    requires PointOk(q) && Happens(q, e, q') && 0 <= p < |Queue(q)| && (e.Turn? ==> p > 0)
    ensures exists p' :: 0 <= p' < |Queue(q')| && Queue(q')[p'] == Queue(q)[p]
                         && if e.Turn? then p' == p - 1 else p <= p' <= p + 1
  {
    var x := Queue(q)[p];
    if e.Turn? {
      assert Queue(q')[p - 1] == (Queue(q) + e.back)[p] == x;
    } else {
      QueueForked(q, e.t);
      var k :| 0 <= k <= |Queue(q)| && Queue(q') == Queue(q)[..k] + [e.t] + Queue(q)[k..];
      assert Queue(q')[if p < k then p else p + 1] == x;
    }
  }

  /** The thread at place p was never taken off in the run. */
  ghost predicate Waits(qs: seq<Lists>, es: seq<Event>, x: int) {
    |qs| == |es| + 1 && forall i :: 0 <= i < |es| && es[i].Turn? && |Queue(qs[i])| > 0 ==> Queue(qs[i])[0] != x
  }

  lemma {:induction false} PlaceAfter(qs: seq<Lists>, es: seq<Event>, p: int, x: int) returns (p': int)
    requires Run(qs, es) && 0 <= p < |Queue(qs[0])| && Queue(qs[0])[p] == x && Waits(qs, es, x)
    ensures 0 <= p' < |Queue(qs[|es|])| && Queue(qs[|es|])[p'] == x && p' <= p - Turns(es) + Forks(es)
  {
    hide Queue, Happens;
    var n := |es|;
    p' := p;
    if n > 0 {
      var p1 := PlaceAfter(qs[..n], es[..n - 1], p, x);
      assert Happens(qs[n - 1], es[n - 1], qs[n - 1 + 1]);
      OneEvent(qs[n - 1], es[n - 1], qs[n], p1);
      p' :| && 0 <= p' < |Queue(qs[n])| && Queue(qs[n])[p'] == x
            && if es[n - 1].Turn? then p' == p1 - 1 else p1 <= p' <= p1 + 1;
    }
  }

  /** No starvation: a listed thread that has not been examined yet has seen no more turns than there were threads
      before it and threads forked meanwhile. */
  lemma ExaminedInTime(qs: seq<Lists>, es: seq<Event>, p: int, x: int)
    requires Run(qs, es) && 0 <= p < |Queue(qs[0])| && Queue(qs[0])[p] == x && Waits(qs, es, x)
    ensures Turns(es) <= p + Forks(es) < |Queue(qs[0])| + Forks(es)
  {
    var p' := PlaceAfter(qs, es, p, x);
  }
}
