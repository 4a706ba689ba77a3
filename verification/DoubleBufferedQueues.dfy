/** `DoubleBufferedQueue`: two queues and two pointers that trade places. */
module DoubleBufferedQueues {

  /** `std::queue` */
  class Queue<T> {
    var items: seq<T>

    constructor ()
      ensures items == []
    {
      items := [];
    }
  }

  class DoubleBufferedQueue<T> {
    const queueA: Queue<T>
    const queueB: Queue<T>
    var frontQueue: Queue<T>
    var backQueue: Queue<T>

    ghost predicate Valid()
      reads this
    {
      queueA != queueB && {frontQueue, backQueue} == {queueA, queueB}
    }

    ghost const Repr: set<object> := {this, queueA, queueB}

    ghost function Front(): seq<T>
      reads this, frontQueue
    {
      frontQueue.items
    }

    ghost function Back(): seq<T>
      reads this, backQueue
    {
      backQueue.items
    }

    constructor ()
      ensures Valid() && Front() == [] && Back() == [] && fresh(Repr)
    {
      var a := new Queue<T>();
      var b := new Queue<T>();
      queueA, queueB := a, b;
      frontQueue, backQueue := a, b;
    }

    /** Whatever is left in the front queue is thrown away. */
    method Swap()
      requires Valid()
      modifies this`frontQueue, this`backQueue, frontQueue
      ensures Valid() && Front() == old(Back()) && Back() == []
      ensures backQueue == old(frontQueue) && frontQueue == old(backQueue)
    {
      frontQueue.items := [];
      var swap := backQueue;
      backQueue := frontQueue;
      frontQueue := swap;
    }

    method Push(item: T)
      requires Valid()
      modifies backQueue
      ensures Valid() && Front() == old(Front()) && Back() == old(Back()) + [item]
    {
      backQueue.items := backQueue.items + [item];
    }

    method Peek() returns (item: T)
      requires Valid() && Front() != []
      ensures item == Front()[0]
    {
      item := frontQueue.items[0];
    }

    method Pop()
      requires Valid() && Front() != []
      modifies frontQueue
      ensures Valid() && Front() == old(Front())[1..] && Back() == old(Back())
    {
      frontQueue.items := frontQueue.items[1..];
    }

    method Empty() returns (r: bool)
      requires Valid()
      ensures r <==> Front() == []
    {
      r := frontQueue.items == [];
    }

    /** The two locks are tested for emptiness where the two queues are meant. */
    method BothEmpty() returns (r: bool)
      requires Valid()
      ensures r <==> Front() == [] && Back() == []
    {
      r := frontQueue.items == [] && backQueue.items == [];
    }
  }
}
