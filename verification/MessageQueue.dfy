/** The message queue of ipc.c at pointer level: nodes linked through their first word, a head,
    a tail and a free pointer. */
module MessageQueues {
  import opened Basics
  import opened Rings
  import opened WaitLists
  import opened Waiting
  import opened Chains
  import opened MemCopy
  import Slots
  import opened MessageQueueViews

  ghost predicate Stored(payload: seq<Message>, n: int, text: Message) {
    0 <= n < |payload| && |text| <= |payload[n]| && payload[n][..|text|] == text
  }

  /** A node being filled holds the message once it is filled, and ends the list it will be
      appended to; a node being drained still holds the message. */
  ghost predicate HandWired(next: seq<int>, payload: seq<Message>, h: Hand) {
    match h
    case Filling(n, text, urgent, filled) =>
      filled ==> Stored(payload, n, text) && n < |next| && (!urgent ==> next[n] == NIL)
    case Draining(n, text, _, _) => Stored(payload, n, text)
  }

  ghost predicate Contents(payload: seq<Message>, q: Mq) {
    && |payload| == q.maxMsgs
    && (forall n :: 0 <= n < |payload| ==> |payload[n]| == q.msgSize)
    && |q.texts| == |q.queue|
    && (forall i :: 0 <= i < |q.queue| ==> Stored(payload, q.queue[i], q.texts[i]))
  }

  ghost predicate Hands(next: seq<int>, payload: seq<Message>, q: Mq) {
    forall t :: t in q.hands ==> HandWired(next, payload, q.hands[t])
  }

  ghost predicate Wired(next: seq<int>, payload: seq<Message>, head: int, tail: int, freeHead: int, q: Mq) {
    && |next| == q.maxMsgs
    && IsList(next, head, q.queue)
    && IsList(next, freeHead, q.free)
    && tail == Last(q.queue)
    && Contents(payload, q)
    && Hands(next, payload, q)
  }

  /** What a thread holds, nobody else reaches. */
  lemma HandNode(q: Mq, t: Thread)
    requires Placement(q) && t in q.hands
    ensures var n := q.hands[t].node;
      && 0 <= n < q.maxMsgs && n !in q.free && n !in q.queue
      && forall u :: u in q.hands && u != t ==> q.hands[u].node != n
  {
  }

  /** A store to the link or the payload of one node disturbs no hand that holds another. */
  lemma HandsApart(next: seq<int>, payload: seq<Message>, q: Mq, next': seq<int>, payload': seq<Message>,
                   hands: map<Thread, Hand>, n: int)
    requires Hands(next, payload, q) && |next'| == |next| && |payload'| == |payload|
    requires forall m :: 0 <= m < |next| && m != n ==> next'[m] == next[m]
    requires forall m :: 0 <= m < |payload| && m != n ==> payload'[m] == payload[m]
    requires forall t :: t in hands ==>
      (t in q.hands && hands[t] == q.hands[t] && hands[t].node != n) || HandWired(next', payload', hands[t])
    ensures forall t :: t in hands ==> HandWired(next', payload', hands[t])
  {
    forall t | t in hands ensures HandWired(next', payload', hands[t]) {
      if t in q.hands && hands[t] == q.hands[t] && hands[t].node != n { assert HandWired(next, payload, q.hands[t]); }
    }
  }

  lemma GrabWired(next: seq<int>, payload: seq<Message>, head: int, tail: int, freeHead: int, q: Mq, t: Thread,
                  text: Message, urgent: bool)
    requires Wired(next, payload, head, tail, freeHead, q) && q.free != []
    ensures 0 <= freeHead < |next| && freeHead == q.free[0]
    ensures Wired(next, payload, head, tail, next[freeHead], Grabbed(q, t, text, urgent))
  {
    hide IsList;
    ListPop(next, freeHead, q.free);
    ListHead(next, freeHead, q.free);
    var r := Grabbed(q, t, text, urgent);
    forall u | u in r.hands ensures HandWired(next, payload, r.hands[u]) {
      if u != t { assert HandWired(next, payload, q.hands[u]); }
    }
  }

  lemma ListHead(next: seq<int>, head: int, s: seq<int>)
    requires IsList(next, head, s)
    ensures s != [] ==> head == s[0]
    ensures s == [] <==> head == NIL
  {
    if s != [] { assert LinkedTo(next, s, 0); }
  }

  lemma FillWired(next: seq<int>, payload: seq<Message>, head: int, tail: int, freeHead: int, q: Mq, t: Thread)
    requires Wired(next, payload, head, tail, freeHead, q) && Placement(q) && Texts(q) && Enabled(q, Fill(t))
    ensures var h := q.hands[t];
      && 0 <= h.node < |next| == |payload| && |h.text| <= |payload[h.node]|
      && Wired(if h.urgent then next else next[h.node := NIL],
               payload[h.node := h.text + payload[h.node][|h.text|..]], head, tail, freeHead, Step(q, Fill(t)))
  {
    var h, r := q.hands[t], Step(q, Fill(t));
    HandNode(q, t);
    hide IsList, Placement;
    var next' := if h.urgent then next else next[h.node := NIL];
    var payload' := payload[h.node := h.text + payload[h.node][|h.text|..]];
    ListStore(next, head, q.queue, h.node, NIL);
    ListStore(next, freeHead, q.free, h.node, NIL);
    assert payload'[h.node][..|h.text|] == h.text;
    forall i | 0 <= i < |q.queue| ensures Stored(payload', q.queue[i], q.texts[i]) {
      assert Stored(payload, q.queue[i], q.texts[i]) && q.queue[i] in q.queue;
    }
    HandsApart(next, payload, q, next', payload', r.hands, h.node);
  }

  lemma LinkWired(next: seq<int>, payload: seq<Message>, head: int, tail: int, freeHead: int, q: Mq, t: Thread)
    requires Wired(next, payload, head, tail, freeHead, q) && Placement(q) && Texts(q)
    requires Enabled(q, Link(t)) && !q.hands[t].urgent
    ensures var n := q.hands[t].node;
      && (tail != NIL ==> 0 <= tail < |next|)
      && Wired(if tail != NIL then next[tail := n] else next, payload, if head == NIL then n else head, n,
               freeHead, Step(q, Link(t)))
  {
    PartsOf(q);
    hide IsList, Placement, Texts, Contents, Hands;
    var n := q.hands[t].node;
    HandNode(q, t);
    LinkContents(next, payload, q, t);
    ListHead(next, head, q.queue);
    if q.queue == [] {
      OneNode(next, payload, q, t);
      OtherHands(next, payload, q, next, t);
    } else {
      ListAppend(next, head, q.queue, n);
      assert tail in q.queue;
      TailApart(q, tail);
      ListStore(next, freeHead, q.free, tail, n);
      HandsAway(next, payload, q, next[tail := n], tail, t);
    }
  }

  lemma LinkContents(next: seq<int>, payload: seq<Message>, q: Mq, t: Thread)
    requires Contents(payload, q) && Hands(next, payload, q) && Texts(q) && Enabled(q, Link(t)) && !q.hands[t].urgent
    ensures Contents(payload, Step(q, Link(t)))
    ensures var n := q.hands[t].node; 0 <= n < |next| && next[n] == NIL
  {
    assert HandWired(next, payload, q.hands[t]);
  }

  lemma OneNode(next: seq<int>, payload: seq<Message>, q: Mq, t: Thread)
    requires Hands(next, payload, q) && Texts(q) && Enabled(q, Link(t)) && !q.hands[t].urgent && q.queue == []
    ensures var r := Step(q, Link(t)); IsList(next, q.hands[t].node, r.queue) && Last(r.queue) == q.hands[t].node
  {
    assert HandWired(next, payload, q.hands[t]);
    var n, r := q.hands[t].node, Step(q, Link(t));
    assert r.queue == [n];
    assert LinkedTo(next, r.queue, 0);
  }

  lemma TailApart(q: Mq, tail: int)
    requires Placement(q) && tail in q.queue
    ensures tail !in q.free && forall t :: t in q.hands ==> q.hands[t].node != tail
  {
  }

  /** A store to the link of a node that is in nobody's hand. */
  lemma HandsAway(next: seq<int>, payload: seq<Message>, q: Mq, next': seq<int>, n: int, t: Thread)
    requires Hands(next, payload, q) && Texts(q) && Enabled(q, Link(t))
    requires forall u :: u in q.hands ==> q.hands[u].node != n
    requires |next'| == |next| && forall m :: 0 <= m < |next| && m != n ==> next'[m] == next[m]
    ensures Hands(next', payload, Step(q, Link(t)))
  {
    HandsApart(next, payload, q, next', payload, Step(q, Link(t)).hands, n);
  }

  lemma UrgentWired(next: seq<int>, payload: seq<Message>, head: int, tail: int, freeHead: int, q: Mq, t: Thread)
    requires Wired(next, payload, head, tail, freeHead, q) && Placement(q) && Texts(q)
    requires Enabled(q, Link(t)) && q.hands[t].urgent
    ensures var n := q.hands[t].node;
      0 <= n < |next| && Wired(next[n := head], payload, n, if tail == NIL then n else tail, freeHead, Step(q, Link(t)))
  {
    PartsOf(q);
    hide IsList, Placement, Last, Texts, Contents, Hands;
    var n, r := q.hands[t].node, Step(q, Link(t));
    HandNode(q, t);
    ListPush(next, head, q.queue, n);
    ListStore(next, freeHead, q.free, n, head);
    TailOf(next, head, q.queue, n);
    UrgentContents(next, payload, q, t);
    OtherHands(next, payload, q, next[n := head], t);
  }

  lemma UrgentContents(next: seq<int>, payload: seq<Message>, q: Mq, t: Thread)
    requires Contents(payload, q) && Hands(next, payload, q) && Texts(q) && Enabled(q, Link(t)) && q.hands[t].urgent
    ensures Contents(payload, Step(q, Link(t)))
  {
    var r := Step(q, Link(t));
    assert HandWired(next, payload, q.hands[t]);
    forall i | 0 <= i < |r.queue| ensures Stored(payload, r.queue[i], r.texts[i]) {
      if i > 0 { assert Stored(payload, q.queue[i - 1], q.texts[i - 1]); }
    }
  }

  /** The hands that are left when the node of `t` has been linked. */
  lemma OtherHands(next: seq<int>, payload: seq<Message>, q: Mq, next': seq<int>, t: Thread)
    requires Hands(next, payload, q) && Placement(q) && Texts(q) && Enabled(q, Link(t))
    requires |next'| == |next| && forall m :: 0 <= m < |next| && m != q.hands[t].node ==> next'[m] == next[m]
    ensures Hands(next', payload, Step(q, Link(t)))
  {
    HandNode(q, t);
    hide Placement, Texts;
    HandsApart(next, payload, q, next', payload, Step(q, Link(t)).hands, q.hands[t].node);
  }

  lemma TailOf(next: seq<int>, head: int, s: seq<int>, n: int)
    requires IsList(next, head, s)
    ensures Last([n] + s) == if Last(s) == NIL then n else Last(s)
  {
    if s != [] { assert LinkedTo(next, s, |s| - 1); }
  }

  lemma PopWired(next: seq<int>, payload: seq<Message>, head: int, tail: int, freeHead: int, q: Mq, op: Op)
    requires Wired(next, payload, head, tail, freeHead, q) && Placement(q) && Texts(q)
    requires q.queue != [] && Enabled(q, op) && op.RecvTake?
    ensures 0 <= head < |next| && head == q.queue[0]
    ensures Wired(next, payload, next[head], if tail == head then NIL else tail, freeHead, Step(q, op))
  {
    var r := Step(q, op);
    ListHead(next, head, q.queue);
    ListPop(next, head, q.queue);
    assert tail == head <==> |q.queue| == 1;
    hide IsList;
    assert Stored(payload, q.queue[0], q.texts[0]);
    forall i | 0 <= i < |r.queue| ensures Stored(payload, r.queue[i], r.texts[i]) {
      assert Stored(payload, q.queue[i + 1], q.texts[i + 1]);
    }
    forall u | u in r.hands ensures HandWired(next, payload, r.hands[u]) {
      if u != op.t { assert HandWired(next, payload, q.hands[u]); }
    }
  }

  lemma PutWired(next: seq<int>, payload: seq<Message>, head: int, tail: int, freeHead: int, q: Mq, t: Thread)
    requires Wired(next, payload, head, tail, freeHead, q) && Placement(q) && Texts(q) && Enabled(q, Put(t))
    ensures var n := q.hands[t].node;
      0 <= n < |next| && Wired(next[n := freeHead], payload, head, tail, n, Step(q, Put(t)))
  {
    var n, r := q.hands[t].node, Step(q, Put(t));
    HandNode(q, t);
    ListPush(next, freeHead, q.free, n);
    ListStore(next, head, q.queue, n, freeHead);
    hide IsList;
    HandsApart(next, payload, q, next[n := freeHead], payload, r.hands, n);
  }

  /** The text area of node `i`. */
  ghost predicate TextOf(shape: Slots.QueueShape, pool: seq<byte>, i: nat, text: Message)
    requires shape.align > 0
  {
    var x := Slots.At(i, shape.Stride()) + shape.node;
    0 <= x && x + shape.Text() <= |pool| && text == pool[x..x + shape.Text()]
  }

  /** The loop of rt_mq_init: each node of the buffer is pushed onto the free list. */
  method CutNodes(shape: Slots.QueueShape, pool: seq<byte>)
    returns (links: seq<int>, texts: seq<Message>, first: int, ghost s: seq<int>)
    requires shape.Sound() && |pool| == shape.poolSize
    ensures |links| == |texts| == |s| == shape.MaxMsgs()
    ensures IsList(links, first, s) && forall n :: n in s <==> 0 <= n < shape.MaxMsgs()
    ensures forall i :: 0 <= i < |texts| ==> TextOf(shape, pool, i, texts[i]) && |texts[i]| == shape.Text()
  {
    hide Slots.At, IsList;
    var size, count := shape.Text(), shape.MaxMsgs();
    links, texts, first, s := seq(count, i => NIL), [], NIL, [];
    NoNodes(links);
    var temp := 0;
    while temp < count
      invariant 0 <= temp <= count && |links| == count && |s| == temp == |texts|
      invariant IsList(links, first, s) && forall n :: n in s <==> 0 <= n < temp
      invariant forall i :: 0 <= i < temp ==> TextOf(shape, pool, i, texts[i]) && |texts[i]| == size
    {
      Slots.NodeInside(shape, temp);
      ListPush(links, first, s, temp);
      var x := Slots.At(temp, shape.Stride()) + shape.node;
      links := links[temp := first];
      texts := texts + [pool[x..x + size]];
      first, s := temp, [temp] + s;
      temp := temp + 1;
    }
  }

  lemma NoNodes(links: seq<int>)
    ensures IsList(links, NIL, [])
  {
  }

  class MessageQueue {
    const msgSize: nat
    const maxMsgs: nat
    const order: Order
    const prio: Thread -> int
    /** First word and message area of every node. */
    var next: seq<int>
    var payload: seq<Message>
    var head: int
    var tail: int
    var freeHead: int
    var entry: nat
    var receivers: seq<Thread>
    var senders: seq<Thread>
    ghost var q: Mq

    ghost predicate Valid()
      reads this
    {
      && Good(q)
      && q.msgSize == msgSize && q.maxMsgs == maxMsgs
      && receivers == q.recv.queue && senders == q.send.queue
      && entry == |q.queue|
      && Wired(next, payload, head, tail, freeHead, q)
    }

    /** head is null iff tail is null iff entry is 0, and tail is the last message. */
    lemma EndsAgree()
      requires Valid()
      ensures head == NIL <==> tail == NIL
      ensures head == NIL <==> entry == 0
      ensures entry > 0 ==> head == q.queue[0] && tail == q.queue[entry - 1]
    {
      ListHead(next, head, q.queue);
      if q.queue != [] { assert LinkedTo(next, q.queue, |q.queue| - 1); }
    }

    /** rt_mq_init: the buffer is cut into nodes, which are pushed onto the free list one after
        the other. */
    constructor (shape: Slots.QueueShape, order: Order, prio: Thread -> int, pool: seq<byte>)
      requires shape.Sound() && |pool| == shape.poolSize
      ensures Valid() && msgSize == shape.Text() && maxMsgs == shape.MaxMsgs()
      ensures q.queue == [] && q.hands == map[] && |q.free| == maxMsgs
      ensures |payload| == maxMsgs && forall i :: 0 <= i < maxMsgs ==> TextOf(shape, pool, i, payload[i])
    {
      var size, count := shape.Text(), shape.MaxMsgs();
      this.msgSize, this.maxMsgs, this.order, this.prio := size, count, order, prio;
      var links, texts, first, s := CutNodes(shape, pool);
      payload := texts;
      next, head, tail, freeHead, entry := links, NIL, NIL, first, 0;
      receivers, senders := [], [];
      q := Mq(size, count, s, [], [], map[], map n | n in s :: InFree, Waiters([], {}), Waiters([], {}));
    }

    /** rt_mq_send_wait up to the point where it holds a node, or one turn of its wait loop. */
    method SendTake(t: Thread, text: Message, timeout: int) returns (msg: int)
      requires Valid() && Enabled(q, Op.SendTake(t, text, timeout != 0, Place(senders, t, prio, order)))
      modifies this
      ensures Valid() && Good(old(q))
      ensures q == Step(old(q), Op.SendTake(t, text, timeout != 0, Place(old(senders), t, prio, order)))
      ensures msg == if |text| <= msgSize && old(q).free != [] then old(q).free[0] else NIL
    {
      ghost var op := Op.SendTake(t, text, timeout != 0, Place(senders, t, prio, order));
      hide Good, Wired, Placed, Place, Placement, Texts;
      GoodParts(q);
      StepKeeps(q, op);
      FreeIsHead(next, payload, head, tail, freeHead, q);
      if |text| > msgSize {
        return NIL;
      }
      msg := freeHead;
      if msg == NIL {
        if timeout != 0 {
          senders := Joined(senders, t, prio, order);
        }
        SameWires(next, payload, head, tail, freeHead, q, Step(q, op));
      } else {
        GrabWired(next, payload, head, tail, freeHead, q, t, text, false);
        SameWires(next, payload, head, tail, next[msg], Grabbed(q, t, text, false), Step(q, op));
        freeHead := next[msg];
      }
      q := Step(q, op);
    }

    /** rt_mq_urgent up to the point where it holds a node. */
    method UrgentTake(t: Thread, text: Message) returns (msg: int)
      requires Valid() && Enabled(q, Op.UrgentTake(t, text))
      modifies this
      ensures Valid() && Good(old(q)) && q == Step(old(q), Op.UrgentTake(t, text))
      ensures msg == if |text| <= msgSize && old(q).free != [] then old(q).free[0] else NIL
    {
      hide Good, Wired, Placement, Texts;
      GoodParts(q);
      StepKeeps(q, Op.UrgentTake(t, text));
      FreeIsHead(next, payload, head, tail, freeHead, q);
      if |text| > msgSize {
        return NIL;
      }
      msg := freeHead;
      if msg != NIL {
        GrabWired(next, payload, head, tail, freeHead, q, t, text, true);
        freeHead := next[msg];
      }
      q := Step(q, Op.UrgentTake(t, text));
    }

    /** The window with interrupts enabled: the message is copied into the node, which a normal
        send first marks as the last of a list. */
    method Fill(t: Thread, msg: int, text: Message, urgent: bool)
      requires Valid() && Enabled(q, Op.Fill(t)) && q.hands[t] == Filling(msg, text, urgent, false)
      modifies this
      ensures Valid() && Good(old(q)) && q == Step(old(q), Op.Fill(t))
    {
      hide Good, Wired, Placement, Texts;
      GoodParts(q);
      StepKeeps(q, Op.Fill(t));
      FillWired(next, payload, head, tail, freeHead, q, t);
      if !urgent {
        next := next[msg := NIL];
      }
      payload := payload[msg := text + payload[msg][|text|..]];
      q := Step(q, Op.Fill(t));
    }

    /** The second region of rt_mq_send_wait: link the node behind the tail, wake a receiver. */
    method LinkLast(t: Thread, msg: int)
      requires Valid() && Enabled(q, Op.Link(t)) && !q.hands[t].urgent && q.hands[t].node == msg
      modifies this
      ensures Valid() && Good(old(q)) && q == Step(old(q), Op.Link(t))
    {
      hide Good, Wired, Placement, Texts;
      GoodParts(q);
      StepKeeps(q, Op.Link(t));
      LinkWired(next, payload, head, tail, freeHead, q, t);
      if tail != NIL {
        next := next[tail := msg];
      }
      tail := msg;
      if head == NIL {
        head := msg;
      }
      entry := entry + 1;
      if receivers != [] {
        receivers := receivers[1..];
      }
      q := Step(q, Op.Link(t));
    }

    /** The second region of rt_mq_urgent: link the node before the head, wake a receiver. */
    method LinkFirst(t: Thread, msg: int)
      requires Valid() && Enabled(q, Op.Link(t)) && q.hands[t].urgent && q.hands[t].node == msg
      modifies this
      ensures Valid() && Good(old(q)) && q == Step(old(q), Op.Link(t))
    {
      hide Good, Wired, Placement, Texts;
      GoodParts(q);
      StepKeeps(q, Op.Link(t));
      UrgentWired(next, payload, head, tail, freeHead, q, t);
      next := next[msg := head];
      head := msg;
      if tail == NIL {
        tail := msg;
      }
      entry := entry + 1;
      if receivers != [] {
        receivers := receivers[1..];
      }
      q := Step(q, Op.Link(t));
    }

    /** Unlink the node at the head. */
    method Unlink() returns (msg: int)
      requires 0 <= head < |next|
      modifies `head, `tail
      ensures msg == old(head) && head == next[msg] && tail == if old(tail) == msg then NIL else old(tail)
    {
      msg := head;
      head := next[msg];
      if tail == msg {
        tail := NIL;
      }
    }

    /** rt_mq_recv up to the point where it holds a message, or one turn of its wait loop. */
    method RecvTake(t: Thread, size: nat, timeout: int) returns (msg: int)
      requires Valid() && Enabled(q, Op.RecvTake(t, size, timeout != 0, Place(receivers, t, prio, order)))
      modifies this
      ensures Valid() && Good(old(q))
      ensures q == Step(old(q), Op.RecvTake(t, size, timeout != 0, Place(old(receivers), t, prio, order)))
      ensures msg == if old(q).queue != [] then old(q).queue[0] else NIL
    {
      ghost var op := Op.RecvTake(t, size, timeout != 0, Place(receivers, t, prio, order));
      hide Good, Wired, Placed, Place, Placement, Texts;
      GoodParts(q);
      StepKeeps(q, op);
      if entry == 0 {
        if timeout != 0 {
          receivers := Joined(receivers, t, prio, order);
        }
        SameWires(next, payload, head, tail, freeHead, q, Step(q, op));
        msg := NIL;
      } else {
        PopWired(next, payload, head, tail, freeHead, q, op);
        msg := Unlink();
        entry := entry - 1;
      }
      q := Step(q, op);
    }

    /** The window with interrupts enabled: the message is copied out of the node. What was sent
        and is asked for arrives unaltered. */
    method Drain(t: Thread, msg: int, size: nat) returns (buffer: Message)
      requires Valid() && Enabled(q, Op.Drain(t)) && q.hands[t].node == msg && q.hands[t].size == size
      modifies `q
      ensures Valid() && Good(old(q)) && q == Step(old(q), Op.Drain(t))
      ensures |buffer| == if size > msgSize then msgSize else size
      ensures var text := old(q).hands[t].text;
        forall i :: 0 <= i < |buffer| && i < |text| ==> buffer[i] == text[i]
    {
      StepKeeps(q, Op.Drain(t));
      ghost var h, r := q.hands[t], Step(q, Op.Drain(t));
      assert HandWired(next, payload, h);
      assert forall i :: 0 <= i < |h.text| ==> payload[msg][..|h.text|][i] == h.text[i];
      buffer := payload[msg][..if size > msgSize then msgSize else size];
      forall u | u in r.hands ensures HandWired(next, payload, r.hands[u]) {
        if u != t { assert HandWired(next, payload, q.hands[u]); }
      }
      q := r;
    }

    /** The second region of a receive: give the node back and wake a sender. */
    method Put(t: Thread, msg: int)
      requires Valid() && Enabled(q, Op.Put(t)) && q.hands[t].node == msg
      modifies this
      ensures Valid() && Good(old(q)) && q == Step(old(q), Op.Put(t))
    {
      hide Good, Wired, Placement, Texts;
      GoodParts(q);
      StepKeeps(q, Op.Put(t));
      PutWired(next, payload, head, tail, freeHead, q, t);
      next := next[msg := freeHead];
      freeHead := msg;
      if senders != [] {
        senders := senders[1..];
      }
      q := Step(q, Op.Put(t));
    }

    /** rt_mq_control with RT_IPC_CMD_RESET: waiting threads leave, messages become free nodes. */
    method Clear()
      requires Valid()
      modifies this
      ensures Valid() && Good(old(q)) && q == Step(old(q), Reset)
    {
      hide Good, Wired, Placement, Texts;
      GoodParts(q);
      StepKeeps(q, Reset);
      WiredParts(next, payload, head, tail, freeHead, q);
      receivers, senders := [], [];
      FreeAll();
      ResetWired(old(next), next, payload, freeHead, q, old(head), old(tail), old(freeHead));
      entry := 0;
      q := Step(q, Reset);
    }

    /** Every message moves from the front of the message list to the front of the free list. */
    method FreeAll()
      requires Placement(q) && |next| == q.maxMsgs && tail == Last(q.queue)
      requires IsList(next, head, q.queue) && IsList(next, freeHead, q.free)
      modifies `next, `head, `tail, `freeHead
      ensures |next| == q.maxMsgs && head == NIL && tail == NIL
      ensures IsList(next, freeHead, Reversed(q.queue) + q.free)
      ensures forall m :: 0 <= m < q.maxMsgs && m !in q.queue ==> next[m] == old(next)[m]
    {
      hide IsList, Placement, Last, Reversed;
      ghost var queue, k := q.queue, 0;
      NothingFreed(queue, q.free);
      ListHead(next, head, queue);
      while head != NIL
        invariant 0 <= k <= |queue| && |next| == q.maxMsgs
        invariant IsList(next, head, queue[k..]) && tail == Last(queue[k..]) && (head == NIL <==> k == |queue|)
        invariant IsList(next, freeHead, Reversed(queue[..k]) + q.free)
        invariant forall m :: 0 <= m < q.maxMsgs && m !in queue ==> next[m] == old(next)[m]
        decreases |queue| - k
      {
        ClearStep(next, head, freeHead, q, k);
        var msg := Unlink();
        next := next[msg := freeHead];
        freeHead := msg;
        k := k + 1;
        ListHead(next, head, queue[k..]);
      }
      EverythingFreed(queue, k);
    }
  }

  lemma NothingFreed(queue: seq<int>, free: seq<int>)
    ensures queue[0..] == queue && Reversed(queue[..0]) + free == free
  {
  }

  lemma EverythingFreed(queue: seq<int>, k: nat)
    requires k == |queue|
    ensures queue[..k] == queue && Last(queue[k..]) == NIL
  {
  }

  /** One turn of the clearing loop, with `k` messages already moved. */
  lemma ClearStep(next: seq<int>, head: int, freeHead: int, q: Mq, k: nat)
    requires Placement(q) && k < |q.queue|
    requires IsList(next, head, q.queue[k..]) && IsList(next, freeHead, Reversed(q.queue[..k]) + q.free)
    ensures 0 <= head < |next| && head in q.queue
    ensures IsList(next[head := freeHead], next[head], q.queue[k + 1..])
    ensures IsList(next[head := freeHead], head, Reversed(q.queue[..k + 1]) + q.free)
    ensures Last(q.queue[k + 1..]) == if Last(q.queue[k..]) == head then NIL else Last(q.queue[k..])
  {
    var rest, done := q.queue[k..], Reversed(q.queue[..k]) + q.free;
    assert rest[1..] == q.queue[k + 1..] && q.queue[..k + 1] == q.queue[..k] + [rest[0]];
    NotYetFreed(q, k);
    hide Placement;
    ListHead(next, head, rest);
    ListPop(next, head, rest);
    TailEnds(rest);
    ListStore(next, next[head], rest[1..], head, freeHead);
    ListPush(next, freeHead, done, head);
    ReversedLast(q.queue[..k], head);
    assert [head] + done == Reversed(q.queue[..k + 1]) + q.free;
  }

  lemma WiredParts(next: seq<int>, payload: seq<Message>, head: int, tail: int, freeHead: int, q: Mq)
    requires Wired(next, payload, head, tail, freeHead, q)
    ensures |next| == q.maxMsgs && tail == Last(q.queue)
    ensures IsList(next, head, q.queue) && IsList(next, freeHead, q.free)
  {
  }

  lemma TailEnds(s: seq<int>)
    requires Distinct(s) && s != []
    ensures Last(s[1..]) == if Last(s) == s[0] then NIL else Last(s)
  {
  }

  lemma NotYetFreed(q: Mq, k: nat)
    requires Placement(q) && k < |q.queue|
    ensures q.queue[k] !in Reversed(q.queue[..k]) + q.free
  {
    var x := q.queue[k];
    ReversedMembers(q.queue[..k]);
    hide Reversed;
    assert x in q.queue && x !in q.free;
    assert forall i :: 0 <= i < k ==> q.queue[i] != x;
    assert x !in q.queue[..k];
  }

  lemma ResetWired(next: seq<int>, next': seq<int>, payload: seq<Message>, freeHead': int, q: Mq, head: int,
                   tail: int, freeHead: int)
    requires Wired(next, payload, head, tail, freeHead, q) && Placement(q)
    requires |next'| == |next| && IsList(next', freeHead', Reversed(q.queue) + q.free)
    requires forall m :: 0 <= m < q.maxMsgs && m !in q.queue ==> next'[m] == next[m]
    ensures Wired(next', payload, NIL, NIL, freeHead', Step(q, Reset))
  {
    var r := Step(q, Reset);
    forall t | t in r.hands ensures HandWired(next', payload, r.hands[t]) {
      assert HandWired(next, payload, q.hands[t]);
      HandNode(q, t);
    }
    assert IsList(next', NIL, r.queue);
    assert Contents(payload, r);
  }

  lemma GoodParts(q: Mq)
    requires Good(q)
    ensures Placement(q) && Texts(q) && |q.texts| == |q.queue|
  {
  }

  lemma FreeIsHead(next: seq<int>, payload: seq<Message>, head: int, tail: int, freeHead: int, q: Mq)
    requires Wired(next, payload, head, tail, freeHead, q)
    ensures q.free == [] <==> freeHead == NIL
  {
    ListHead(next, freeHead, q.free);
  }

  lemma SameWires(next: seq<int>, payload: seq<Message>, head: int, tail: int, freeHead: int, q: Mq, r: Mq)
    requires Wired(next, payload, head, tail, freeHead, q) && r == q.(recv := r.recv, send := r.send)
    ensures Wired(next, payload, head, tail, freeHead, r)
  {
  }
}
