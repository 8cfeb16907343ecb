/**
 Stickiness by rendezvous hashing, and the negative cache which hides the rows of
 other nodes from the SQL queries.
 */
module Sticky {

  type Id = string

  /**
   A cluster node.  `key` is the rank of its name in key order, `address` what the score
   hashes.  The host name is fixed when the key appears; the rest can be updated.
   */
  datatype Node = Node(key: int, hostName: string, address: int, isOurOwn: bool)

  type Score = (int, Id) -> real

  /** `std::map` iterates in key order. */
  predicate SortedByKey(nodes: seq<Node>) {
    forall i, j | 0 <= i < j < |nodes| :: nodes[i].key < nodes[j].key
  }

  /** A higher score wins; of equal scores, the first in key order. */
  predicate Beats(score: Score, id: Id, w: Node, n: Node) {
    score(n.address, id) < score(w.address, id) || (score(n.address, id) == score(w.address, id) && w.key <= n.key)
  }

  predicate IsWinner(nodes: seq<Node>, score: Score, id: Id, w: Node) {
    w in nodes && forall n | n in nodes :: Beats(score, id, w, n)
  }

  /** With at most one known node the job is local without asking for scores. */
  ghost predicate IsLocalFor(nodes: seq<Node>, score: Score, id: Id) {
    |nodes| <= 1 || exists w :: IsWinner(nodes, score, id, w) && w.isOurOwn
  }

  // ---------------------------------------------------------- the node map

  predicate HasKey(nodes: seq<Node>, key: int) {
    exists i | 0 <= i < |nodes| :: nodes[i].key == key
  }

  /** What becomes of the map when an object appears: a known key keeps its host name. */
  function Put(nodes: seq<Node>, node: Node): seq<Node> {
    if nodes == [] || node.key < nodes[0].key then [node] + nodes
    else if nodes[0].key == node.key then [node.(hostName := nodes[0].hostName)] + nodes[1..]
    else [nodes[0]] + Put(nodes[1..], node)
  }

  /** ... and when it disappears. */
  function Drop(nodes: seq<Node>, key: int): seq<Node> {
    if nodes == [] then []
    else if nodes[0].key == key then nodes[1..]
    else [nodes[0]] + Drop(nodes[1..], key)
  }

  /** The entry a key has after it appeared. */
  function Entry(nodes: seq<Node>, node: Node): (put: Node)
    ensures put == node.(hostName := put.hostName)
  {
    if nodes == [] || node.key < nodes[0].key then node
    else if nodes[0].key == node.key then node.(hostName := nodes[0].hostName)
    else Entry(nodes[1..], node)
  }

  lemma {:induction false} PutMembers(nodes: seq<Node>, node: Node)
    requires SortedByKey(nodes)
    ensures SortedByKey(Put(nodes, node))
    ensures forall n :: n in Put(nodes, node) <==> n == Entry(nodes, node) || (n in nodes && n.key != node.key)
  {
    if nodes != [] {
      assert nodes == [nodes[0]] + nodes[1..];
      if nodes[0].key < node.key {
        PutMembers(nodes[1..], node);
        ConsSorted(nodes[0], Put(nodes[1..], node));
      }
    }
  }

  lemma {:induction false} PutSize(nodes: seq<Node>, node: Node)
    requires SortedByKey(nodes)
    ensures |Put(nodes, node)| == |nodes| + if HasKey(nodes, node.key) then 0 else 1
    ensures !HasKey(nodes, node.key) ==> Entry(nodes, node) == node
  {
    if nodes != [] && nodes[0].key < node.key {
      PutSize(nodes[1..], node);
      HasKeyCons(nodes, node.key);
    }
  }

  lemma HasKeyCons(nodes: seq<Node>, key: int)
    requires nodes != []
    ensures HasKey(nodes, key) <==> nodes[0].key == key || HasKey(nodes[1..], key)
  {
    if HasKey(nodes, key) && nodes[0].key != key {
      var i :| 0 <= i < |nodes| && nodes[i].key == key;
      assert nodes[1..][i - 1].key == key;
    }
  }

  lemma ConsSorted(first: Node, rest: seq<Node>)
    requires SortedByKey(rest) && forall n | n in rest :: first.key < n.key
    ensures SortedByKey([first] + rest)
  {
  }

  lemma {:induction false} DropMembers(nodes: seq<Node>, key: int)
    requires SortedByKey(nodes)
    ensures SortedByKey(Drop(nodes, key))
    ensures forall n :: n in Drop(nodes, key) <==> n in nodes && n.key != key
  {
    if nodes != [] {
      assert nodes == [nodes[0]] + nodes[1..];
      if nodes[0].key != key {
        DropMembers(nodes[1..], key);
        ConsSorted(nodes[0], Drop(nodes[1..], key));
      }
    }
  }

  lemma {:induction false} DropSize(nodes: seq<Node>, key: int)
    requires SortedByKey(nodes)
    ensures |Drop(nodes, key)| == |nodes| - if HasKey(nodes, key) then 1 else 0
  {
    if nodes != [] {
      HasKeyCons(nodes, key);
      if nodes[0].key != key {
        DropSize(nodes[1..], key);
      }
    }
  }

  class StickyManager {
    const score: Score
    var nodes: seq<Node>

    constructor (score: Score)
      ensures this.score == score && nodes == []
    {
      this.score := score;
      nodes := [];
    }

    /** Who runs the job, and whether that is us. */
    method IsLocal(id: Id) returns (hostName: string, local: bool)
      requires SortedByKey(nodes)
      ensures local <==> IsLocalFor(nodes, score, id)
      ensures nodes == [] ==> hostName == "localhost"
      ensures nodes != [] ==> exists w :: IsWinner(nodes, score, id, w) && hostName == w.hostName && (2 <= |nodes| ==> local == w.isOurOwn)
    {
      if nodes == [] {
        return "localhost", true;
      }
      if |nodes| == 1 {
        assert IsWinner(nodes, score, id, nodes[0]);
        return nodes[0].hostName, true;
      }
      var best, bestScore := nodes[0], score(nodes[0].address, id);
      for i := 1 to |nodes|
        invariant bestScore == score(best.address, id)
        invariant IsWinner(nodes[..i], score, id, best)
      {
        var s := score(nodes[i].address, id);
        assert nodes[..i + 1] == nodes[..i] + [nodes[i]];
        if bestScore < s {
          best, bestScore := nodes[i], s;
        }
      }
      assert nodes[..|nodes|] == nodes;
      WinnerIsUnique(nodes, score, id, best);
      return best.hostName, best.isOurOwn;
    }

    /** A known key keeps its place and is updated; a new one is inserted in key order. */
    method OnAvahiNewObject(node: Node)
      requires SortedByKey(nodes)
      modifies this
      ensures nodes == Put(old(nodes), node) && SortedByKey(nodes)
    {
      var i := 0;
      while i < |nodes| && nodes[i].key < node.key
        invariant i <= |nodes| && nodes == old(nodes)
        invariant Put(nodes, node) == nodes[..i] + Put(nodes[i..], node)
      {
        PutStep(nodes, node, i);
        i := i + 1;
      }
      PutSorted(nodes, node);
      if i < |nodes| && nodes[i].key == node.key {
        assert nodes[i..][1..] == nodes[i + 1..];
        nodes := nodes[..i] + ([node.(hostName := nodes[i].hostName)] + nodes[i + 1..]);
      } else {
        nodes := nodes[..i] + ([node] + nodes[i..]);
      }
    }

    method OnAvahiRemoveObject(key: int)
      requires SortedByKey(nodes)
      modifies this
      ensures nodes == Drop(old(nodes), key) && SortedByKey(nodes)
    {
      DropMembers(nodes, key);
      for i := 0 to |nodes|
        invariant nodes == old(nodes)
        invariant Drop(nodes, key) == nodes[..i] + Drop(nodes[i..], key)
      {
        assert nodes[i..][1..] == nodes[i + 1..];
        if nodes[i].key == key {
          nodes := nodes[..i] + nodes[i + 1..];
          return;
        }
        Shift(nodes, i, Drop(nodes[i + 1..], key));
      }
    }
  }

  lemma PutStep(nodes: seq<Node>, node: Node, i: nat)
    requires i < |nodes| && nodes[i].key < node.key && Put(nodes, node) == nodes[..i] + Put(nodes[i..], node)
    ensures Put(nodes, node) == nodes[..i + 1] + Put(nodes[i + 1..], node)
  {
    assert nodes[i..][1..] == nodes[i + 1..];
    Shift(nodes, i, Put(nodes[i + 1..], node));
  }

  lemma PutSorted(nodes: seq<Node>, node: Node)
    requires SortedByKey(nodes)
    ensures SortedByKey(Put(nodes, node))
  {
    PutMembers(nodes, node);
  }

  lemma Shift(nodes: seq<Node>, i: nat, rest: seq<Node>)
    requires i < |nodes|
    ensures nodes[..i] + ([nodes[i]] + rest) == nodes[..i + 1] + rest
  {
  }

  lemma WinnerIsUnique(nodes: seq<Node>, score: Score, id: Id, w: Node)
    requires SortedByKey(nodes) && IsWinner(nodes, score, id, w)
    ensures forall v | IsWinner(nodes, score, id, v) :: v == w
  {
  }

  lemma {:induction false} WinnerExists(nodes: seq<Node>, score: Score, id: Id) returns (w: Node)
    requires SortedByKey(nodes) && nodes != []
    ensures IsWinner(nodes, score, id, w)
  {
    var n := |nodes| - 1;
    assert nodes == nodes[..n] + [nodes[n]];
    w := nodes[n];
    if 0 < n {
      var v := WinnerExists(nodes[..n], score, id);
      if score(w.address, id) <= score(v.address, id) {
        w := v;
      }
    }
  }

  // ----------------------------------------------------------- agreement

  /** The same nodes as node `me` sees them: only its own entry is its own. */
  function ViewOf(nodes: seq<Node>, me: int): seq<Node> {
    seq(|nodes|, i requires 0 <= i < |nodes| => nodes[i].(isOurOwn := nodes[i].key == me))
  }

  lemma ViewWinner(nodes: seq<Node>, score: Score, id: Id, w: Node, me: int)
    requires SortedByKey(nodes) && IsWinner(nodes, score, id, w)
    ensures SortedByKey(ViewOf(nodes, me))
    ensures IsWinner(ViewOf(nodes, me), score, id, w.(isOurOwn := w.key == me))
  {
    var view := ViewOf(nodes, me);
    var i :| 0 <= i < |nodes| && nodes[i] == w;
    assert view[i] == w.(isOurOwn := w.key == me);
    forall n | n in view
      ensures Beats(score, id, view[i], n)
    {
      var k :| 0 <= k < |view| && view[k] == n;
      assert Beats(score, id, w, nodes[k]);
    }
  }

  /** If all nodes know the same nodes, themselves included, exactly one of them finds an id local. */
  lemma ExactlyOneNodeIsLocal(nodes: seq<Node>, score: Score, id: Id) returns (owner: Node)
    requires SortedByKey(nodes) && nodes != []
    ensures owner in nodes && IsLocalFor(ViewOf(nodes, owner.key), score, id)
    ensures forall n | n in nodes && IsLocalFor(ViewOf(nodes, n.key), score, id) :: n == owner
  {
    owner := WinnerExists(nodes, score, id);
    ViewWinner(nodes, score, id, owner, owner.key);
    forall n | n in nodes && IsLocalFor(ViewOf(nodes, n.key), score, id)
      ensures n == owner
    {
      ViewWinner(nodes, score, id, owner, n.key);
      WinnerIsUnique(ViewOf(nodes, n.key), score, id, owner.(isOurOwn := owner.key == n.key));
    }
  }

  /** Removing a node moves only the ids it held. */
  lemma RemovalMovesOnlyItsIds(nodes: seq<Node>, key: int, score: Score, id: Id, w: Node)
    requires SortedByKey(nodes) && IsWinner(nodes, score, id, w) && w.key != key
    ensures IsWinner(Drop(nodes, key), score, id, w)
  {
    DropMembers(nodes, key);
  }

  /** Adding a node moves ids only to it. */
  lemma AdditionMovesOnlyToIt(nodes: seq<Node>, added: Node, score: Score, id: Id, w: Node, v: Node)
    requires SortedByKey(nodes) && !HasKey(nodes, added.key)
    requires IsWinner(nodes, score, id, w) && IsWinner(Put(nodes, added), score, id, v)
    ensures v == if Beats(score, id, added, w) then added else w
  {
    PutMembers(nodes, added);
    PutSize(nodes, added);
    SameWinner(Put(nodes, added), score, id, added, v);
    if v != added {
      SameWinner(nodes, score, id, w, v);
    }
  }

  // ------------------------------------------------------- negative cache

  /** The node map and the temporary table `sticky_non_local` of one connection. */
  datatype Cache = Cache(nodes: seq<Node>, nonLocal: set<Id>)

  /** `Appeared` is a new node, ours or another, or an update of a known one. */
  datatype Event =
    | Check(id: Id)
    | Flush
    | Reconnect
    | Appeared(node: Node)
    | Disappeared(key: int)

  ghost function After(c: Cache, score: Score, e: Event): Cache {
    match e
    case Check(id) => if IsLocalFor(c.nodes, score, id) then c else c.(nonLocal := c.nonLocal + {id})
    case Flush => c.(nonLocal := {})
    case Reconnect => c.(nonLocal := {})
    case Appeared(node) => c.(nodes := Put(c.nodes, node))
    case Disappeared(key) => c.(nodes := Drop(c.nodes, key))
  }

  /** The SQL filter hides only ids which are not local. */
  ghost predicate HidesOnlyForeign(c: Cache, score: Score) {
    SortedByKey(c.nodes) && forall id | id in c.nonLocal :: !IsLocalFor(c.nodes, score, id)
  }

  /** The node with this key wins the id, and of the others our own node `own` is the best. */
  ghost predicate OwnIsNext(nodes: seq<Node>, score: Score, id: Id, key: int, own: Node) {
    && (exists w :: IsWinner(nodes, score, id, w) && w.key == key)
    && own in nodes && own.isOurOwn && own.key != key
    && forall n | n in nodes && n.key != key :: Beats(score, id, own, n)
  }

  /** What an event must be to make a foreign id local. */
  ghost predicate Exposes(nodes: seq<Node>, score: Score, id: Id, e: Event) {
    match e
    case Appeared(node) =>
      /* our own node comes in first, or the winner falls back behind our own node */
      || (node.isOurOwn && forall n | n in nodes && n.key != node.key :: Beats(score, id, node, n))
      || (exists own :: OwnIsNext(nodes, score, id, node.key, own) && Beats(score, id, own, node))
    case Disappeared(key) =>
      /* only one node is left, or the winner goes and our own node is next */
      || (|nodes| == 2 && HasKey(nodes, key))
      || (exists own :: OwnIsNext(nodes, score, id, key, own))
    case _ => false
  }

  /** The event makes no hidden id local. */
  ghost predicate Harmless(c: Cache, score: Score, e: Event) {
    forall id | id in c.nonLocal :: !Exposes(c.nodes, score, id, e)
  }

  lemma ExposedByAppearance(nodes: seq<Node>, score: Score, id: Id, node: Node, w: Node, v: Node)
    requires SortedByKey(nodes) && IsWinner(nodes, score, id, w) && !w.isOurOwn
    requires IsWinner(Put(nodes, node), score, id, v) && v.isOurOwn
    ensures Exposes(nodes, score, id, Appeared(node))
  {
    PutMembers(nodes, node);
    if v != Entry(nodes, node) {
      if w.key != node.key {
        SameWinner(nodes, score, id, w, v);
      }
      assert Beats(score, id, v, Entry(nodes, node));
      assert OwnIsNext(nodes, score, id, node.key, v);
    }
  }

  lemma WinnerAfterAppearance(nodes: seq<Node>, score: Score, id: Id, node: Node) returns (v: Node)
    requires SortedByKey(nodes) && Exposes(nodes, score, id, Appeared(node))
    ensures IsWinner(Put(nodes, node), score, id, v) && v.isOurOwn
  {
    PutMembers(nodes, node);
    if own :| OwnIsNext(nodes, score, id, node.key, own) && Beats(score, id, own, node) {
      v := own;
    } else {
      v := Entry(nodes, node);
    }
  }

  lemma AppearanceExposes(nodes: seq<Node>, score: Score, id: Id, node: Node)
    requires SortedByKey(nodes) && !IsLocalFor(nodes, score, id)
    ensures IsLocalFor(Put(nodes, node), score, id) <==> Exposes(nodes, score, id, Appeared(node))
  {
    var w := WinnerExists(nodes, score, id);
    PutSize(nodes, node);
    if IsLocalFor(Put(nodes, node), score, id) {
      var v :| IsWinner(Put(nodes, node), score, id, v) && v.isOurOwn;
      ExposedByAppearance(nodes, score, id, node, w, v);
    }
    if Exposes(nodes, score, id, Appeared(node)) {
      var v := WinnerAfterAppearance(nodes, score, id, node);
    }
  }

  /** Of two nodes of one map which beat each other there is only one. */
  lemma SameWinner(nodes: seq<Node>, score: Score, id: Id, w: Node, v: Node)
    requires SortedByKey(nodes) && w in nodes && v in nodes
    ensures Beats(score, id, w, v) && Beats(score, id, v, w) ==> w == v
  {
    var i, j :| 0 <= i < |nodes| && nodes[i] == w && 0 <= j < |nodes| && nodes[j] == v;
  }

  lemma ExposedByDisappearance(nodes: seq<Node>, score: Score, id: Id, key: int, w: Node, v: Node)
    requires SortedByKey(nodes) && IsWinner(nodes, score, id, w) && !w.isOurOwn
    requires IsWinner(Drop(nodes, key), score, id, v) && v.isOurOwn
    ensures OwnIsNext(nodes, score, id, key, v)
  {
    DropMembers(nodes, key);
    if w.key != key {
      SameWinner(nodes, score, id, w, v);
    }
  }

  lemma NextAfterDisappearance(nodes: seq<Node>, score: Score, id: Id, key: int, own: Node)
    requires SortedByKey(nodes) && OwnIsNext(nodes, score, id, key, own)
    ensures IsWinner(Drop(nodes, key), score, id, own)
  {
    DropMembers(nodes, key);
  }

  lemma DisappearanceExposes(nodes: seq<Node>, score: Score, id: Id, key: int)
    requires SortedByKey(nodes) && !IsLocalFor(nodes, score, id)
    ensures IsLocalFor(Drop(nodes, key), score, id) <==> Exposes(nodes, score, id, Disappeared(key))
  {
    var w := WinnerExists(nodes, score, id);
    DropSize(nodes, key);
    if 2 <= |Drop(nodes, key)| && IsLocalFor(Drop(nodes, key), score, id) {
      var v :| IsWinner(Drop(nodes, key), score, id, v) && v.isOurOwn;
      ExposedByDisappearance(nodes, score, id, key, w, v);
    }
    if own :| OwnIsNext(nodes, score, id, key, own) {
      NextAfterDisappearance(nodes, score, id, key, own);
    }
  }

  /** As long as the filter hides only foreign ids, an event keeps that if and only if it is harmless. */
  lemma EventKeepsSoundness(c: Cache, score: Score, e: Event)
    requires HidesOnlyForeign(c, score)
    ensures HidesOnlyForeign(After(c, score, e), score) <==> Harmless(c, score, e)
  {
    if e.Appeared? {
      PutMembers(c.nodes, e.node);
      forall id | id in c.nonLocal
        ensures IsLocalFor(Put(c.nodes, e.node), score, id) <==> Exposes(c.nodes, score, id, e)
      {
        AppearanceExposes(c.nodes, score, id, e.node);
      }
    } else if e.Disappeared? {
      DropMembers(c.nodes, e.key);
      forall id | id in c.nonLocal
        ensures IsLocalFor(Drop(c.nodes, e.key), score, id) <==> Exposes(c.nodes, score, id, e)
      {
        DisappearanceExposes(c.nodes, score, id, e.key);
      }
    }
  }

  ghost function Replay(c: Cache, score: Score, events: seq<Event>): Cache {
    if events == [] then c else After(Replay(c, score, events[..|events| - 1]), score, events[|events| - 1])
  }

  ghost predicate HarmlessRun(c: Cache, score: Score, events: seq<Event>) {
    events == [] ||
    (HarmlessRun(c, score, events[..|events| - 1]) &&
     Harmless(Replay(c, score, events[..|events| - 1]), score, events[|events| - 1]))
  }

  ghost predicate SoundThroughout(c: Cache, score: Score, events: seq<Event>) {
    HidesOnlyForeign(Replay(c, score, events), score) && (events != [] ==> SoundThroughout(c, score, events[..|events| - 1]))
  }

  /** From a flush or connect on, the filter hides only foreign ids all the time if and only if every event is harmless. */
  lemma {:induction false} CacheIsSound(nodes: seq<Node>, score: Score, events: seq<Event>)
    requires SortedByKey(nodes)
    ensures SoundThroughout(Cache(nodes, {}), score, events) <==> HarmlessRun(Cache(nodes, {}), score, events)
  {
    if events != [] {
      var most := events[..|events| - 1];
      CacheIsSound(nodes, score, most);
      if SoundThroughout(Cache(nodes, {}), score, most) {
        EventKeepsSoundness(Replay(Cache(nodes, {}), score, most), score, events[|events| - 1]);
      }
    }
  }

  /** A flush or connect puts the cache right, whatever was hidden before. */
  lemma FlushHeals(c: Cache, score: Score, e: Event)
    requires SortedByKey(c.nodes) && (e.Flush? || e.Reconnect?)
    ensures HidesOnlyForeign(After(c, score, e), score) && After(c, score, e).nodes == c.nodes
    ensures forall id :: id !in After(c, score, e).nonLocal
  {
  }

  /** Every such event leaves a local id hidden: an id that was found foreign before stays so until the next flush. */
  lemma ExposedIdStaysHidden(nodes: seq<Node>, score: Score, id: Id, e: Event)
    requires SortedByKey(nodes) && !IsLocalFor(nodes, score, id) && Exposes(nodes, score, id, e)
    ensures var c := Replay(Cache(nodes, {}), score, [Check(id), e]);
            id in c.nonLocal && IsLocalFor(c.nodes, score, id)
  {
    assert [Check(id), e][..1] == [Check(id)];
    assert Replay(Cache(nodes, {}), score, [Check(id)]) == Cache(nodes, {id});
    if e.Appeared? {
      AppearanceExposes(nodes, score, id, e.node);
    } else {
      DisappearanceExposes(nodes, score, id, e.key);
    }
  }

  /** There are such events: the winner goes, or moves to an address with a lower score, or our own node comes in. */
  lemma WaysToExpose(score: Score, id: Id, us: Node, other: Node, third: Node, moved: int)
    requires us.isOurOwn && !other.isOurOwn && !third.isOurOwn && us.key < other.key < third.key
    requires score(third.address, id) < score(other.address, id)
    ensures score(us.address, id) < score(other.address, id) ==>
              !IsLocalFor([us, other], score, id) && Exposes([us, other], score, id, Disappeared(other.key))
    ensures score(moved, id) < score(us.address, id) < score(other.address, id) ==>
              Exposes([us, other], score, id, Appeared(other.(address := moved)))
    ensures score(other.address, id) < score(us.address, id) ==>
              !IsLocalFor([other, third], score, id) && Exposes([other, third], score, id, Appeared(us))
  {
    var two, foreign := [us, other], [other, third];
    assert two[1] == other && two[0] == us && foreign[0] == other && foreign[1] == third;
    assert IsWinner(foreign, score, id, other);
    WinnerIsUnique(foreign, score, id, other);
    if score(us.address, id) < score(other.address, id) {
      assert IsWinner(two, score, id, other);
      WinnerIsUnique(two, score, id, other);
      assert OwnIsNext(two, score, id, other.key, us);
    }
  }
}
