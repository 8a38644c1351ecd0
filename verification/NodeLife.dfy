/** One node of the routing table: what messages, requests and hearsay make of its entry, and what the entry
    says of its history. */
module NodeLife {
  import opened Ids
  import opened RoutingTable

  /** What a message from or about a known node changes in its entry. */
  function Refresh(n: Node, addr: Address, confirm: nat, now: int): Node {
    if confirm != 0 || n.time < now - 15 * 60 then
      n.(addr := addr,
         time := if confirm != 0 then now else n.time,
         replyTime := if confirm >= 2 then now else n.replyTime,
         pinged := if confirm >= 2 then 0 else n.pinged,
         pingedTime := if confirm >= 2 then 0 else n.pingedTime)
    else n
  }

  function Fresh(id: Id, addr: Address, confirm: nat, now: int): Node {
    Node(id, addr, if confirm != 0 then now else 0, if confirm >= 2 then now else 0, 0, 0)
  }

  /** A node that may be overwritten: three requests unanswered, the last over 15 seconds ago. */
  predicate Replaceable(n: Node, now: int) {
    n.pinged >= 3 && n.pingedTime < now - 15
  }

  predicate Pingable(n: Node, now: int) {
    !Good(n, now) && n.pingedTime < now - 15
  }

  function PingedNode(n: Node, now: int): Node {
    n.(pinged := n.pinged + 1, pingedTime := now)
  }

  // ----- the entry by its history -----

  /** What happens between us and a node. */
  datatype Contact =
    | Hearsay(addr: Address, now: int)
    | Message(addr: Address, now: int)
    | Reply(addr: Address, now: int)
    | Request(now: int)

  /** The `confirm` of new_node. */
  function Confirm(c: Contact): nat {
    match c
    case Hearsay(_, _) => 0
    case Message(_, _) => 1
    case Reply(_, _) => 2
    case Request(_) => 0
  }

  /** The entry of a node after everything that has happened, the first of it being how we learnt of the node. */
  function Entry(id: Id, cs: seq<Contact>): Node
    requires cs != [] && !cs[0].Request?
  {
    var c := cs[|cs| - 1];
    if |cs| == 1 then Fresh(id, c.addr, Confirm(c), c.now)
    else if c.Request? then PingedNode(Entry(id, cs[..|cs| - 1]), c.now)
    else Refresh(Entry(id, cs[..|cs| - 1]), c.addr, Confirm(c), c.now)
  }

  /** When the node last answered a request of ours, and when it last sent anything; 0 for never. */
  function LastReply(cs: seq<Contact>): int {
    if cs == [] then 0
    else if cs[|cs| - 1].Reply? then cs[|cs| - 1].now
    else LastReply(cs[..|cs| - 1])
  }

  function LastHeard(cs: seq<Contact>): int {
    if cs == [] then 0
    else if cs[|cs| - 1].Reply? || cs[|cs| - 1].Message? then cs[|cs| - 1].now
    else LastHeard(cs[..|cs| - 1])
  }

  /** How many requests it has left unanswered since its last reply, and when the last of them went out; 0 if
      there is none. */
  function Unanswered(cs: seq<Contact>): nat {
    if cs == [] || cs[|cs| - 1].Reply? then 0
    else (if cs[|cs| - 1].Request? then 1 else 0) + Unanswered(cs[..|cs| - 1])
  }

  function LastRequest(cs: seq<Contact>): int {
    if cs == [] || cs[|cs| - 1].Reply? then 0
    else if cs[|cs| - 1].Request? then cs[|cs| - 1].now
    else LastRequest(cs[..|cs| - 1])
  }

  /** Where it is: hearsay is believed of a node we have not heard from for fifteen minutes. */
  function LastAddress(cs: seq<Contact>): Address
    requires cs != [] && !cs[0].Request?
  {
    var c := cs[|cs| - 1];
    if |cs| == 1 || c.Reply? || c.Message? || (c.Hearsay? && c.now - LastHeard(cs[..|cs| - 1]) > 900) then c.addr
    else LastAddress(cs[..|cs| - 1])
  }

  lemma {:induction false} EntryIsHistory(id: Id, cs: seq<Contact>)
    requires cs != [] && !cs[0].Request?
    ensures Entry(id, cs)
         == Node(id, LastAddress(cs), LastHeard(cs), LastReply(cs), LastRequest(cs), Unanswered(cs))
  {
    var init := cs[..|cs| - 1];
    if |cs| == 1 {
      assert init == [];
    } else {
      EntryIsHistory(id, init);
    }
  }

  /** A node is good while it has replied within two hours, was heard from within fifteen minutes and has left
      no more than two requests unanswered; it may be overwritten once three are, the last for more than 15
      seconds, and is pinged in between when it is not good and has not been for 15 seconds. */
  lemma StandingByHistory(id: Id, cs: seq<Contact>, now: int)
    requires cs != [] && !cs[0].Request?
    ensures var n := Entry(id, cs);
            && n.id == id && n.addr == LastAddress(cs) && n.pinged == Unanswered(cs)
            && (Good(n, now) <==>
                now - LastReply(cs) <= 7200 && now - LastHeard(cs) <= 900 && Unanswered(cs) <= 2)
            && (Replaceable(n, now) <==> Unanswered(cs) >= 3 && now - LastRequest(cs) > 15)
            && (Pingable(n, now) <==> !Good(n, now) && now - LastRequest(cs) > 15)
  {
    EntryIsHistory(id, cs);
  }

  /** What new_node makes of a node of this id, given those it knew: a reply makes it good for the next fifteen
      minutes, with nothing unanswered; a message is noted, but settles no request; hearsay changes at most the
      address, and of a node not heard from for fifteen minutes only; a node that was not known owes nothing. */
  ghost predicate Told(known: multiset<Node>, n: Node, id: Id, addr: Address, confirm: nat, now: int) {
    && n.id == id
    && (confirm >= 2 ==>
          n.pinged == 0 && n.pingedTime == 0 && n.addr == addr && forall t | now <= t <= now + 900 :: Good(n, t))
    && (confirm == 1 ==> n.time == now && n.addr == addr)
    && (forall was | was in known && was.id == id ::
          && (confirm <= 1 ==>
                n.pinged == was.pinged && n.pingedTime == was.pingedTime && n.replyTime == was.replyTime)
          && (confirm == 0 ==> n.time == was.time && n.addr == if was.time < now - 900 then addr else was.addr))
    && (!Knows(known, id) ==>
          n.pinged == 0 && n.pingedTime == 0 && n.addr == addr && (confirm <= 1 ==> n.replyTime == 0)
          && (confirm == 0 ==> n.time == 0))
  }

  lemma RefreshTells(known: multiset<Node>, was: Node, addr: Address, confirm: nat, now: int)
    requires UniqueIds(known) && was in known
    ensures Told(known, Refresh(was, addr, confirm, now), was.id, addr, confirm, now)
  {
    assert Knows(known, was.id);
  }

  lemma FreshTells(known: multiset<Node>, id: Id, addr: Address, confirm: nat, now: int)
    requires !Knows(known, id)
    ensures Told(known, Fresh(id, addr, confirm, now), id, addr, confirm, now)
  {
  }
}
