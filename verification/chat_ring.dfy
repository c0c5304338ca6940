/** The chat history of src/chat_model.c: a circular list of at most 23 nodes that refines a bounded queue. */
module ChatRing {
  import opened Board

  const TEXT_SIZE := 60
  const MAX_CHAT_HISTORY_LEN := 23

  datatype Message = Message(sender: int, text: string, whispered: bool)

  /** What `create_chat_node` keeps of a text: its buffer ends with a NUL. */
  function Clip(text: string): (r: string)
    ensures |r| == (if |text| < 60 then |text| else 59) && r <= text
    ensures r == text <==> |text| < TEXT_SIZE
  {
    if |text| < TEXT_SIZE then text else text[..TEXT_SIZE - 1]
  }

  /** `create_chat_node` refuses unknown senders and empty texts. */
  predicate Acceptable(sender: int, text: string) {
    0 <= sender < PLAYER_NUM && text != []
  }

  // ---- the bounded queue ------------------------------------------------------------------

  function LastOf<T>(s: seq<T>, n: nat): (r: seq<T>)
    ensures |r| == if |s| < n then |s| else n
  {
    if |s| <= n then s else s[|s| - n..]
  }

  function Push(queue: seq<Message>, m: Message): (r: seq<Message>)
    requires |queue| <= MAX_CHAT_HISTORY_LEN
    ensures |r| <= MAX_CHAT_HISTORY_LEN
  {
    LastOf(queue + [m], MAX_CHAT_HISTORY_LEN)
  }

  /** One attempt to add a message, by the server or by the client's own line. */
  datatype Attempt = Attempt(sender: int, text: string, whispered: bool)

  function Accepted(attempts: seq<Attempt>): (r: seq<Message>)
    ensures |r| <= |attempts|
  {
    if attempts == [] then []
    else
      var a := attempts[|attempts| - 1];
      Accepted(attempts[..|attempts| - 1])
      + if Acceptable(a.sender, a.text) then [Message(a.sender, Clip(a.text), a.whispered)] else []
  }

  function AfterAttempt(queue: seq<Message>, a: Attempt): (r: seq<Message>)
    requires |queue| <= MAX_CHAT_HISTORY_LEN
    ensures |r| <= MAX_CHAT_HISTORY_LEN
  {
    if Acceptable(a.sender, a.text) then Push(queue, Message(a.sender, Clip(a.text), a.whispered)) else queue
  }

  function AfterAttempts(attempts: seq<Attempt>): (r: seq<Message>)
    ensures |r| <= MAX_CHAT_HISTORY_LEN
  {
    if attempts == [] then []
    else AfterAttempt(AfterAttempts(attempts[..|attempts| - 1]), attempts[|attempts| - 1])
  }

  /** However many messages were attempted, the queue holds the last 23 of those accepted, in order. */
  lemma {:induction false} QueueKeepsLast(attempts: seq<Attempt>)
    ensures AfterAttempts(attempts) == LastOf(Accepted(attempts), 23)
  {
    if attempts != [] {
      var front, a := attempts[..|attempts| - 1], attempts[|attempts| - 1];
      QueueKeepsLast(front);
      if Acceptable(a.sender, a.text) {
        PushLast(Accepted(front), Message(a.sender, Clip(a.text), a.whispered));
      }
    }
  }

  lemma PushLast(s: seq<Message>, m: Message)
    ensures Push(LastOf(s, MAX_CHAT_HISTORY_LEN), m) == LastOf(s + [m], MAX_CHAT_HISTORY_LEN)
  {
  }

  // ---- the ring ---------------------------------------------------------------------------

  class ChatNode {
    const sender: int
    const message: string
    const whispered: bool
    var next: ChatNode?

    constructor (s: int, text: string, w: bool)
      ensures sender == s && message == Clip(text) && whispered == w && next == null
    {
      sender, message, whispered, next := s, Clip(text), w, null;
    }

    function Value(): Message {
      Message(sender, message, whispered)
    }
  }

  /** `create_chat_node` */
  method CreateChatNode(sender: int, text: string, whispered: bool) returns (node: ChatNode?)
    ensures node == null <==> sender !in {0, 1, 2, 3} || text == ""
    ensures node == null <==> !Acceptable(sender, text)
    ensures node != null ==> fresh(node) && node.Value() == Message(sender, Clip(text), whispered)
  {
    if sender < 0 || sender >= PLAYER_NUM {
      return null;
    }
    if |text| == 0 {
      return null;
    }
    node := new ChatNode(sender, text, whispered);
  }

  ghost function Values(nodes: seq<ChatNode>): (s: seq<Message>)
    ensures |s| == |nodes| && forall i :: 0 <= i < |nodes| ==> s[i] == nodes[i].Value()
  {
    seq(|nodes|, i requires 0 <= i < |nodes| => nodes[i].Value())
  }

  lemma ValuesPushed(nodes: seq<ChatNode>, node: ChatNode)
    requires |nodes| <= MAX_CHAT_HISTORY_LEN
    ensures Values(LastOf(nodes + [node], MAX_CHAT_HISTORY_LEN)) == Push(Values(nodes), node.Value())
  {
  }

  /** A ring read off from any of its nodes visits every node exactly once. */
  lemma RotationVisitsOnce(nodes: seq<ChatNode>)
    requires nodes != [] && forall i, j :: 0 <= i < j < |nodes| ==> nodes[i] != nodes[j]
    ensures var r := nodes[1..] + [nodes[0]];
      multiset(r) == multiset(nodes) && forall i, j :: 0 <= i < j < |r| ==> r[i] != r[j]
  {
    assert nodes == [nodes[0]] + nodes[1..];
  }

  class ChatHistory {
    var head: ChatNode?
    var count: nat
    ghost var nodes: seq<ChatNode>

    /** The nodes from the head on: each leads to the following one, the last back to the head. */
    ghost predicate Valid()
      reads this, nodes
    {
      && count == |nodes| <= MAX_CHAT_HISTORY_LEN
      && (if nodes == [] then head == null else head == nodes[0])
      && (forall i, j :: 0 <= i < j < |nodes| ==> nodes[i] != nodes[j])
      && (forall i {:trigger nodes[i].next} :: 0 <= i < |nodes| ==> nodes[i].next == nodes[if i + 1 < |nodes| then i + 1 else 0])
    }

    ghost function Contents(): (s: seq<Message>)
      reads this
    {
      Values(nodes)
    }

    constructor ()
      ensures Valid() && nodes == []
    {
      head, count, nodes := null, 0, [];
    }

    /** The walk to the node before the head, which ends at the last node. */
    method FindLast() returns (last: ChatNode)
      requires Valid() && nodes != []
      ensures last == nodes[|nodes| - 1]
    {
      last := head;
      ghost var k := 0;
      while last.next != head
        invariant 0 <= k < |nodes| && last == nodes[k]
        decreases |nodes| - k
      {
        last := last.next;
        k := k + 1;
      }
    }

    /** A full ring: the new node goes behind the last one and the oldest is detached. */
    method ReplaceOldest(node: ChatNode)
      requires Valid() && node !in nodes && count == MAX_CHAT_HISTORY_LEN
      modifies this, nodes, node`next
      ensures Valid() && nodes == old(nodes)[1..] + [node]
    {
      var oldest := head;
      var last := FindLast();
      assert head.next == nodes[1];
      head := oldest.next;
      last.next := node;
      node.next := head;
      oldest.next := null;
      nodes := nodes[1..] + [node];
    }

    /** Room left: the new node goes behind the last one, or alone into the empty ring. */
    method LinkAtEnd(node: ChatNode)
      requires Valid() && node !in nodes && count < MAX_CHAT_HISTORY_LEN
      modifies this, nodes, node`next
      ensures Valid() && nodes == old(nodes) + [node]
    {
      if head == null {
        head := node;
        node.next := node;
      } else {
        var temp := FindLast();
        temp.next := node;
        node.next := head;
      }
      count := count + 1;
      nodes := nodes + [node];
    }

    /** The part that both ways of adding a message share. */
    method Append(node: ChatNode)
      requires Valid() && node !in nodes
      modifies this, nodes, node`next
      ensures Valid() && nodes == LastOf(old(nodes) + [node], MAX_CHAT_HISTORY_LEN)
      ensures Contents() == Push(old(Contents()), node.Value())
    {
      ValuesPushed(nodes, node);
      if count == MAX_CHAT_HISTORY_LEN {
        assert LastOf(nodes + [node], MAX_CHAT_HISTORY_LEN) == nodes[1..] + [node];
        ReplaceOldest(node);
      } else {
        LinkAtEnd(node);
      }
    }

    /** `add_message_from_server` */
    method AddMessageFromServer(sender: int, text: string, whispered: bool) returns (ok: bool)
      requires Valid()
      modifies this, nodes
      ensures Valid() && ok == Acceptable(sender, text)
      ensures Contents() == AfterAttempt(old(Contents()), Attempt(sender, text, whispered))
      ensures forall n :: n in nodes ==> n in old(nodes) || fresh(n)
    {
      var node := CreateChatNode(sender, text, whispered);
      if node == null {
        return false;
      }
      Append(node);
      ok := true;
    }

    /** Following `next` for `count` steps, as the view does, lists the messages in order and ends at the head. */
    method Walk() returns (seen: seq<Message>, end: ChatNode?)
      requires Valid()
      ensures seen == Contents() && end == head
    {
      seen, end := [], head;
      for i := 0 to count
        invariant |seen| == i && forall j :: 0 <= j < i ==> seen[j] == nodes[j].Value()
        invariant end == if nodes == [] then null else nodes[if i < |nodes| then i else 0]
      {
        seen := seen + [end.Value()];
        end := end.next;
      }
    }

    /** `free_chat_history`: the nodes in the order in which they are freed, each exactly once; the successor
        is read before its node is freed. */
    method Free() returns (freed: seq<ChatNode>)
      requires Valid()
      modifies this
      ensures head == null && count == 0
      ensures freed == if old(nodes) == [] then [] else old(nodes)[1..] + [old(nodes)[0]]
      ensures multiset(freed) == multiset(old(nodes)) && forall i, j :: 0 <= i < j < |freed| ==> freed[i] != freed[j]
    {
      freed := [];
      if head == null {
        count := 0;
        return;
      }
      var current := head.next;
      ghost var k := 1;
      while current != head
        invariant 1 <= k <= |nodes|
        invariant current == nodes[if k < |nodes| then k else 0]
        invariant freed == nodes[1..k]
        decreases |nodes| - k
      {
        var next := current.next;
        freed := freed + [current];
        current := next;
        k := k + 1;
      }
      freed := freed + [head];
      RotationVisitsOnce(nodes);
      head := null;
      count := 0;
    }
  }
}
