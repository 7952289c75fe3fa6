/** The singly linked queue of the samples, against the sequence of its elements and the history of its calls. */
module Queue {
  import opened CText

  /** Deleting a node ends its life; only a live node may be read, linked or deleted. */
  class QueueNode<E> {
    const element: E
    var next: QueueNode?<E>
    ghost var live: bool

    constructor (element: E)
      ensures this.element == element && next == null && live
    {
      this.element := element;
      next := null;
      live := true;
    }

    function Next(): QueueNode?<E>
      requires live
      reads this
    {
      next
    }

    function Element(): E
      requires live
      reads this
    {
      element
    }

    method Delete()
      requires live
      modifies this`live
      ensures !live
    {
      live := false;
    }
  }

  /** The chain of nodes: distinct, and each linked to the one after it, the last to none. */
  ghost predicate IsChain<E>(nodes: seq<QueueNode<E>>)
    reads nodes`next
  {
    && (forall j, k | 0 <= j < k < |nodes| :: nodes[j] != nodes[k])
    && (forall k | 0 <= k < |nodes| :: nodes[k].next == NodeAt(nodes, k + 1))
  }

  /** Behind its first node a chain is a chain again, and the first node is not met twice. */
  lemma ChainRest<E>(nodes: seq<QueueNode<E>>)
    requires nodes != [] && IsChain(nodes)
    ensures IsChain(nodes[1..]) && NodeAt(nodes, 1) == NodeAt(nodes[1..], 0)
    ensures forall n :: n in nodes <==> n == nodes[0] || n in nodes[1..]
    ensures nodes[0] !in nodes[1..]
  {
    assert nodes == [nodes[0]] + nodes[1..];
  }

  ghost predicate IsLinked<E>(nodes: seq<QueueNode<E>>)
    reads nodes`next
  {
    && (forall j, k | 0 <= j < k < |nodes| :: nodes[j] != nodes[k])
    && (forall k | 0 <= k < |nodes| - 1 :: nodes[k].next == nodes[k + 1])
  }

  lemma ChainLinks<E>(nodes: seq<QueueNode<E>>)
    requires IsChain(nodes)
    ensures IsLinked(nodes)
  {
  }

  /** A chain and one more node that its last one is linked to. */
  lemma ChainSnoc<E>(nodes: seq<QueueNode<E>>, node: QueueNode<E>)
    requires IsLinked(nodes) && node !in nodes && node.next == null
    requires nodes != [] ==> nodes[|nodes| - 1].next == node
    ensures IsChain(nodes + [node])
  {
  }

  function NodeAt<E>(nodes: seq<QueueNode<E>>, k: int): QueueNode?<E> {
    if 0 <= k < |nodes| then nodes[k] else null
  }

  function Elements<E>(nodes: seq<QueueNode<E>>): (s: seq<E>)
    ensures |s| == |nodes|
  {
    seq(|nodes|, k requires 0 <= k < |nodes| => nodes[k].element)
  }

  lemma ElementsSnoc<E>(nodes: seq<QueueNode<E>>, node: QueueNode<E>)
    ensures Elements(nodes + [node]) == Elements(nodes) + [node.element]
  {
  }

  function Images<E>(s: seq<E>, f: E -> E): (t: seq<E>)
    ensures |t| == |s| && forall k | 0 <= k < |s| :: t[k] == f(s[k])
  {
    seq(|s|, k requires 0 <= k < |s| => f(s[k]))
  }

  lemma ImagesNone<E>(s: seq<E>, f: E -> E)
    ensures Images(s[..0], f) == []
  {
  }

  lemma ImagesSnoc<E>(s: seq<E>, k: nat, f: E -> E)
    requires k < |s|
    ensures Images(s[..k + 1], f) == Images(s[..k], f) + [f(s[k])]
  {
  }

  class Queue<E> {
    var head: QueueNode?<E>
    var last: QueueNode?<E>
    var size: nat
    /** The nodes in line, and every node this queue has ever made. */
    ghost var nodes: seq<QueueNode<E>>
    ghost var made: set<QueueNode<E>>

    ghost predicate Valid()
      reads this, made
    {
      && (forall n | n in nodes :: n in made)
      && IsChain(nodes)
      && head == NodeAt(nodes, 0) && last == NodeAt(nodes, |nodes| - 1) && size == |nodes|
      && (last != null ==> last in made)
      && (forall n | n in made :: n.live <==> n in nodes)
    }

    ghost function Contents(): (s: seq<E>)
      reads this
    {
      Elements(nodes)
    }

    constructor ()
      ensures Valid() && Contents() == [] && made == {} && last == null
    {
      head, last, size := null, null, 0;
      nodes, made := [], {};
    }

    /** Every node is deleted, each of them once; nothing the queue ever made is left alive. */
    method Clear()
      requires Valid()
      modifies this, made
      ensures Valid() && Contents() == [] && made == old(made)
      ensures forall n | n in made :: !n.live
    {
      if size > 0 {
        var node := head;
        var next := node.Next();
        ghost var line := nodes;
        while true
          invariant line != [] && IsChain(line) && node == line[0] && next == NodeAt(line, 1)
          invariant nodes == old(nodes) && made == old(made) && (forall n | n in line :: n in made)
          invariant forall n | n in made :: n.live <==> n in line
          decreases |line|
        {
          ChainRest(line);
          node.Delete();
          node, line := next, line[1..];
          if node == null { break; }
          next := node.Next();
        }
        head, last := null, null;
        size := 0;
        nodes := [];
      }
    }

    method Size() returns (n: nat)
      requires Valid()
      ensures n == |Contents()|
    {
      n := size;
    }

    /** The first node of the queue, the one holding its oldest element, or null when there is none. */
    method Head() returns (node: QueueNode?<E>)
      requires Valid()
      ensures if Contents() == [] then node == null else node != null && node.live && node.element == Contents()[0]
    {
      node := head;
    }

    method Last() returns (node: QueueNode?<E>)
      requires Valid()
      ensures if Contents() == [] then node == null
              else node != null && node.live && node.next == null && node.element == Contents()[|Contents()| - 1]
    {
      node := last;
    }

    method Enqueue(element: E)
      requires Valid()
      modifies this, last
      ensures Valid() && Contents() == old(Contents()) + [element]
      ensures last != null && fresh(last) && made == old(made) + {last} && nodes == old(nodes) + [last]
    {
      hide Elements, IsChain;
      ChainLinks(nodes);
      var newNode := new QueueNode<E>(element);
      ElementsSnoc(nodes, newNode);
      if size == 0 {
        head, last := newNode, newNode;
        size := 1;
      } else {
        last.next := newNode;
        last := newNode;
        size := size + 1;
      }
      ChainSnoc(nodes, newNode);
      nodes, made := nodes + [newNode], made + {newNode};
    }

    method Dequeue() returns (element: Option<E>)
      requires Valid()
      modifies this, made
      ensures Valid() && made == old(made)
      ensures if old(Contents()) == [] then element == None && Contents() == [] && nodes == old(nodes)
              else element == Some(old(Contents())[0]) && Contents() == old(Contents())[1..] && !old(head).live
    {
      if size == 0 {
        return None;
      }
      var oldHead := head;
      head := head.Next();
      size := size - 1;
      if size == 0 {
        last := null;
      }
      element := Some(oldHead.Element());
      oldHead.Delete();
      nodes := nodes[1..];
    }

    lemma NodeInLine(k: nat)
      requires Valid() && k < |nodes|
      ensures nodes[k].live && nodes[k].next == NodeAt(nodes, k + 1) && nodes[k].element == Contents()[k]
      ensures NodeAt(nodes, k) == nodes[k]
    {
    }

    lemma HeadOfLine()
      requires Valid()
      ensures |Contents()| == |nodes| && head == NodeAt(nodes, 0) && (head == null <==> |nodes| == 0)
    {
    }

    /** A new queue of the images, in order; this one is not touched. */
    method Map(f: E -> E) returns (queue: Queue<E>)
      requires Valid()
      ensures fresh(queue) && fresh(queue.made) && queue.Valid()
      ensures queue.Contents() == Images(Contents(), f)
    {
      hide Valid, Contents, NodeAt, Images, Elements, IsChain;
      queue := new Queue<E>();
      var node := head;
      ghost var k, contents := 0, Contents();
      HeadOfLine();
      ImagesNone(contents, f);
      while node != null
        invariant 0 <= k <= |nodes| == |contents| && node == NodeAt(nodes, k) && (node == null <==> k == |nodes|)
        invariant fresh(queue) && fresh(queue.made) && queue.Valid() && queue.Contents() == Images(contents[..k], f)
        invariant queue.last == null || fresh(queue.last)
        invariant Valid() && Contents() == contents
        decreases |nodes| - k
      {
        NodeInLine(k);
        queue.Enqueue(f(node.Element()));
        ImagesSnoc(contents, k, f);
        node, k := node.Next(), k + 1;
        NodeOrNone(nodes, k);
      }
      assert contents[..k] == contents;
    }
  }

  lemma NodeOrNone<E>(nodes: seq<QueueNode<E>>, k: nat)
    requires k <= |nodes|
    ensures NodeAt(nodes, k) == null <==> k == |nodes|
  {
  }

  // ---------------------------------------------------------------- histories

  datatype Call<E> = Enqueue(element: E) | Dequeue | Clear

  /** What a history of calls leaves in line, and what its Dequeue calls have returned. */
  datatype Account<E> = Account(line: seq<E>, answers: seq<Option<E>>)

  function After<E>(calls: seq<Call<E>>): Account<E> {
    if calls == [] then Account([], []) else Served(After(calls[..|calls| - 1]), calls[|calls| - 1])
  }

  function Served<E>(was: Account<E>, call: Call<E>): Account<E> {
    match call
    case Enqueue(e) => was.(line := was.line + [e])
    case Dequeue =>
      if was.line == [] then was.(answers := was.answers + [None])
      else Account(was.line[1..], was.answers + [Some(was.line[0])])
    case Clear => was.(line := [])
  }

  /** Any history at all, on the linked nodes. */
  method RunHistory<E>(calls: seq<Call<E>>) returns (queue: Queue<E>, answers: seq<Option<E>>)
    ensures fresh(queue) && fresh(queue.made) && queue.Valid()
    ensures Account(queue.Contents(), answers) == After(calls)
  {
    queue := new Queue<E>();
    answers := [];
    for i := 0 to |calls|
      invariant fresh(queue) && fresh(queue.made) && queue.Valid()
      invariant Account(queue.Contents(), answers) == After(calls[..i])
    {
      assert calls[..i + 1][..i] == calls[..i];
      match calls[i]
      case Enqueue(e) => queue.Enqueue(e);
      case Dequeue =>
        var e := queue.Dequeue();
        answers := answers + [e];
      case Clear => queue.Clear();
    }
    assert calls[..|calls|] == calls;
  }

  function Given<E>(calls: seq<Call<E>>): seq<E> {
    if calls == [] then [] else Given(calls[..|calls| - 1]) + GivenBy(calls[|calls| - 1])
  }

  function GivenBy<E>(call: Call<E>): seq<E> { if call.Enqueue? then [call.element] else [] }

  function Returned<E>(answers: seq<Option<E>>): seq<E> {
    if answers == [] then []
    else Returned(answers[..|answers| - 1]) + (if answers[|answers| - 1].Some? then [answers[|answers| - 1].value] else [])
  }

  lemma ReturnedSnoc<E>(answers: seq<Option<E>>, a: Option<E>)
    ensures Returned(answers + [a]) == Returned(answers) + (if a.Some? then [a.value] else [])
  {
    assert (answers + [a])[..|answers|] == answers;
  }

  /** First in, first out: without Clear, what came out followed by what is still in line is what went in, in order. */
  lemma {:induction false} FirstInFirstOut<E>(calls: seq<Call<E>>)
    requires Clear !in calls
    ensures Returned(After(calls).answers) + After(calls).line == Given(calls)
  {
    if calls != [] {
      hide Served, Returned, GivenBy;
      var init := calls[..|calls| - 1];
      FirstInFirstOut(init);
      ServedInOrder(After(init), calls[|calls| - 1]);
    }
  }

  lemma ServedInOrder<E>(was: Account<E>, call: Call<E>)
    requires call != Clear
    ensures var now := Served(was, call);
            Returned(now.answers) + now.line == Returned(was.answers) + was.line + GivenBy(call)
  {
    if call.Dequeue? {
      ReturnedSnoc(was.answers, if was.line == [] then None else Some(was.line[0]));
      hide Returned;
      assert was.line != [] ==> was.line == [was.line[0]] + was.line[1..];
    }
  }

  /** Clear forgets: from there on the line is that of a new queue, and the answers follow the earlier ones. */
  lemma {:induction false} ClearStartsAfresh<E>(before: seq<Call<E>>, later: seq<Call<E>>)
    ensures var all := before + [Clear] + later;
            After(all) == Account(After(later).line, After(before).answers + After(later).answers)
  {
    var all := before + [Clear] + later;
    if later == [] {
      assert all[..|all| - 1] == before;
    } else {
      var init := later[..|later| - 1];
      ClearStartsAfresh(before, init);
      assert all[..|all| - 1] == before + [Clear] + init;
    }
  }
}
