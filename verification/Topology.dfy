/** The graph of a network: nodes and links as objects, its editing operations and its searches. */
module Topology {
  import opened Wrappers
  import opened Weights
  import opened ShortestPaths
  import opened SearchSteps

  /** Module ids are 32-bit integers; -1 stands for "no module". */
  newtype ModuleId = x: int | -0x8000_0000 <= x < 0x8000_0000

  const NO_MODULE: ModuleId := -1

  /** The order of nodes[]: ids compare as unsigned numbers, which puts -1 last. */
  function OrderKey(id: ModuleId): int {
    if id < 0 then id as int + 0x1_0000_0000 else id as int
  }

  // ----- Erasing from a vector -----

  /** The vector after find(x) and erase: the first occurrence goes. */
  function Erase<T(==)>(s: seq<T>, x: T): seq<T> {
    if s == [] then []
    else if s[0] == x then s[1..]
    else [s[0]] + Erase(s[1..], x)
  }

  /** The entries of s that are not in gone, in their order. */
  ghost function Minus<T>(s: seq<T>, gone: set<T>): seq<T> {
    if s == [] then []
    else if s[0] in gone then Minus(s[1..], gone)
    else [s[0]] + Minus(s[1..], gone)
  }

  lemma {:induction false} MinusContents<T>(s: seq<T>, gone: set<T>)
    ensures Entries(Minus(s, gone)) == Entries(s) - gone
    ensures Distinct(s) ==> Distinct(Minus(s, gone))
  {
    if s == [] {
    } else {
      var rest := Minus(s[1..], gone);
      MinusContents(s[1..], gone);
      assert s == [s[0]] + s[1..];
      assert Entries(s) == {s[0]} + Entries(s[1..]);
      if s[0] !in gone {
        assert Entries(Minus(s, gone)) == {s[0]} + Entries(rest);
        assert forall i :: 0 <= i < |rest| ==> rest[i] in Entries(rest);
      }
    }
  }

  lemma {:induction false} MinusNothing<T>(s: seq<T>, gone: set<T>)
    requires forall x :: x in s ==> x !in gone
    ensures Minus(s, gone) == s
  {
    if s == [] {
    } else {
      MinusNothing(s[1..], gone);
    }
  }

  lemma {:induction false} MinusSame<T>(s: seq<T>, a: set<T>, b: set<T>)
    requires forall x :: x in s ==> (x in a <==> x in b)
    ensures Minus(s, a) == Minus(s, b)
  {
    if s == [] {
    } else {
      MinusSame(s[1..], a, b);
    }
  }

  lemma {:induction false} EraseIsMinus<T>(s: seq<T>, x: T)
    requires Distinct(s)
    ensures Erase(s, x) == Minus(s, {x})
  {
    if s == [] {
    } else {
      if s[0] == x {
        assert forall y :: y in s[1..] ==> y != s[0];
        MinusNothing(s[1..], {x});
      } else {
        EraseIsMinus(s[1..], x);
      }
    }
  }

  lemma {:induction false} MinusMinus<T>(s: seq<T>, a: set<T>, b: set<T>)
    ensures Minus(Minus(s, a), b) == Minus(s, a + b)
  {
    if s == [] {
    } else {
      MinusMinus(s[1..], a, b);
      if s[0] !in a {
        assert Minus(s, a)[1..] == Minus(s[1..], a);
      }
    }
  }

  /** All there is to know about erasing one entry of a duplicate-free vector. */
  lemma EraseOne<T>(s: seq<T>, x: T)
    requires Distinct(s)
    ensures Erase(s, x) == Minus(s, {x})
    ensures x !in s ==> Minus(s, {x}) == s
  {
    EraseIsMinus(s, x);
    if x !in s {
      MinusNothing(s, {x});
    }
  }

  lemma {:induction false} EraseAt<T>(s: seq<T>, x: T, i: nat)
    requires i < |s| && s[i] == x && forall k :: 0 <= k < i ==> s[k] != x
    ensures Erase(s, x) == s[..i] + s[i + 1..]
  {
    if i == 0 {
    } else {
      EraseAt(s[1..], x, i - 1);
      assert s[1..][..i - 1] == s[1..i] && s[1..][i..] == s[i + 1..];
    }
  }

  lemma EntriesNext<T>(s: seq<T>, i: nat)
    requires i < |s|
    ensures Entries(s[..i + 1]) == Entries(s[..i]) + {s[i]}
  {
  }

  /** The first position of x in s. */
  method Find<T(==)>(s: seq<T>, x: T) returns (i: nat)
    requires x in s
    ensures i < |s| && s[i] == x && x !in s[..i]
  {
    i := 0;
    while s[i] != x
      invariant i < |s| && x !in s[..i]
      decreases |s| - i
    {
      i := i + 1;
    }
  }

  // ----- Nodes and links -----

  class Node {
    const moduleId: ModuleId
    var weight: Dist
    var enabled: bool
    var inLinks: seq<Link>
    var outLinks: seq<Link>
    var dist: Dist
    var outPath: Link?

    constructor (moduleId: ModuleId)
      ensures this.moduleId == moduleId && weight == ZERO && enabled
      ensures inLinks == [] && outLinks == [] && dist == Inf && outPath == null
    {
      this.moduleId := moduleId;
      weight, enabled := ZERO, true;
      inLinks, outLinks := [], [];
      dist, outPath := Inf, null;
    }
  }

  class Link {
    var srcNode: Node?
    var destNode: Node?
    var weight: Dist
    var enabled: bool

    constructor (weight: Dist)
      ensures this.weight == weight && enabled
      ensures srcNode == null && destNode == null
    {
      srcNode, destNode := null, null;
      this.weight, enabled := weight, true;
    }
  }

  /** nodes[] is ordered by module id. */
  ghost predicate OrderedById(nodes: seq<Node>) {
    forall i, j {:trigger OrderKey(nodes[i].moduleId), OrderKey(nodes[j].moduleId)} :: 0 <= i < j < |nodes| ==>
      OrderKey(nodes[i].moduleId) <= OrderKey(nodes[j].moduleId)
  }

  lemma InsertKeepsOrderById(nodes: seq<Node>, x: Node, pos: nat)
    requires OrderedById(nodes) && pos <= |nodes|
    requires forall k :: 0 <= k < pos ==> OrderKey(nodes[k].moduleId) <= OrderKey(x.moduleId)
    requires forall k :: pos <= k < |nodes| ==> OrderKey(x.moduleId) <= OrderKey(nodes[k].moduleId)
    ensures OrderedById(Insert(nodes, x, pos))
  {
    var r := Insert(nodes, x, pos);
    assert forall k :: 0 <= k < |r| ==> r[k] == if k < pos then nodes[k] else if k == pos then x else nodes[k - 1];
  }

  lemma InsertedTwice<T>(s: seq<T>, x: T, pos: nat)
    requires pos <= |s| && x in s
    ensures !Distinct(Insert(s, x, pos))
  {
    var r := Insert(s, x, pos);
    var i :| 0 <= i < |s| && s[i] == x;
    assert r[pos] == x && r[if i < pos then i else i + 1] == x;
  }

  lemma EraseKeepsOrderById(nodes: seq<Node>, x: Node, i: nat)
    requires OrderedById(nodes) && Distinct(nodes) && i < |nodes| && nodes[i] == x
    ensures OrderedById(nodes[..i] + nodes[i + 1..]) && Distinct(nodes[..i] + nodes[i + 1..])
    ensures forall n :: n in nodes[..i] + nodes[i + 1..] <==> n in nodes && n != x
  {
    assert nodes == nodes[..i] + [nodes[i]] + nodes[i + 1..];
  }

  // ----- The wiring of a graph, as a value -----

  datatype Lists = Lists(ins: seq<Link>, outs: seq<Link>) {
    ghost function Without(gone: set<Link>): Lists {
      Lists(Minus(ins, gone), Minus(outs, gone))
    }
  }

  datatype Ends = Ends(src: Node?, dst: Node?)

  /** The link lists of the nodes, and the two ends of every link of the graph. */
  datatype Wiring = Wiring(lists: map<Node, Lists>, ends: map<Link, Ends>)

  ghost function Incoming(w: Wiring, n: Node): set<Link> {
    set l | l in w.ends && w.ends[l].dst == n
  }

  ghost function Outgoing(w: Wiring, n: Node): set<Link> {
    set l | l in w.ends && w.ends[l].src == n
  }

  /** list holds every element of links exactly once, and nothing else. */
  ghost predicate ListsOnce<T>(list: seq<T>, links: set<T>) {
    Distinct(list) && Entries(list) == links
  }

  ghost predicate ListsItsLinks(w: Wiring, n: Node)
    requires n in w.lists
  {
    ListsOnce(w.lists[n].ins, Incoming(w, n)) && ListsOnce(w.lists[n].outs, Outgoing(w, n))
  }

  /**
   Each link is listed exactly once by its source and exactly once by its destination,
   both of them nodes of the graph, and nowhere else.
   */
  ghost predicate Dual(w: Wiring) {
    && (forall l :: l in w.ends ==> w.ends[l].src in w.lists.Keys && w.ends[l].dst in w.lists.Keys)
    && (forall n {:trigger ListsItsLinks(w, n)} :: n in w.lists ==> ListsItsLinks(w, n))
  }

  /** A chain of usable links leads from n to t. */
  ghost predicate Chain(ends: map<Link, Ends>, usable: set<Link>, n: Node, older p: seq<Link>, t: Node) {
    if p == [] then n == t
    else
      && p[0] in usable && p[0] in ends && ends[p[0]].src == n
      && ends[p[0]].dst != null && Chain(ends, usable, ends[p[0]].dst, p[1..], t)
  }

  // ----- What the editing operations do to it -----

  ghost function Unlinked(w: Wiring, gone: set<Link>): Wiring {
    Wiring(map n | n in w.lists :: w.lists[n].Without(gone), map l | l in w.ends && l !in gone :: w.ends[l])
  }

  ghost function Attached(w: Wiring, k: Link, from: Node, to: Node): Wiring {
    Wiring(map n | n in w.lists ::
             Lists(if n == to then w.lists[n].ins + [k] else w.lists[n].ins,
                   if n == from then w.lists[n].outs + [k] else w.lists[n].outs),
           w.ends[k := Ends(from, to)])
  }

  ghost function Linked(w: Wiring, k: Link, from: Node, to: Node): Wiring {
    Attached(Unlinked(w, {k}), k, from, to)
  }

  /** x comes with whatever links it lists. */
  ghost function NodeAdded(w: Wiring, x: Node, lists: Lists): Wiring {
    w.(lists := w.lists[x := lists])
  }

  /** x is gone, and with it every link that starts or ends there. */
  ghost function NodeRemoved(w: Wiring, x: Node): Wiring {
    var u := Unlinked(w, Incoming(w, x) + Outgoing(w, x));
    u.(lists := map n | n in u.lists && n != x :: u.lists[n])
  }

  /** Which links belong to the graph afterwards. */
  lemma UnlinkedLinks(w: Wiring, gone: set<Link>)
    ensures Unlinked(w, gone).ends.Keys == w.ends.Keys - gone
  {
  }

  lemma LinkedLinks(w: Wiring, k: Link, from: Node, to: Node)
    ensures Linked(w, k, from, to).ends.Keys == w.ends.Keys + {k}
  {
    UnlinkedLinks(w, {k});
  }

  lemma NodeRemovedLinks(w: Wiring, x: Node)
    ensures NodeRemoved(w, x).ends.Keys == w.ends.Keys - (Incoming(w, x) + Outgoing(w, x))
  {
    UnlinkedLinks(w, Incoming(w, x) + Outgoing(w, x));
  }

  lemma MinusListsOnce<T>(list: seq<T>, links: set<T>, gone: set<T>)
    requires ListsOnce(list, links)
    ensures ListsOnce(Minus(list, gone), links - gone)
  {
    MinusContents(list, gone);
  }

  lemma AppendListsOnce<T>(list: seq<T>, links: set<T>, k: T)
    requires ListsOnce(list, links) && k !in links
    ensures ListsOnce(list + [k], links + {k})
  {
    assert forall i :: 0 <= i < |list| ==> list[i] in Entries(list);
  }

  lemma UnlinkedKeepsDual(w: Wiring, gone: set<Link>)
    requires Dual(w)
    ensures Dual(Unlinked(w, gone))
  {
    var u := Unlinked(w, gone);
    forall n | n in u.lists
      ensures ListsItsLinks(u, n)
    {
      assert ListsItsLinks(w, n);
      MinusListsOnce(w.lists[n].ins, Incoming(w, n), gone);
      MinusListsOnce(w.lists[n].outs, Outgoing(w, n), gone);
      assert Incoming(u, n) == Incoming(w, n) - gone;
      assert Outgoing(u, n) == Outgoing(w, n) - gone;
    }
  }

  lemma AttachedKeepsLists(w: Wiring, k: Link, from: Node, to: Node, n: Node)
    requires n in w.lists && ListsItsLinks(w, n) && k !in w.ends
    ensures ListsItsLinks(Attached(w, k, from, to), n)
  {
    var v := Attached(w, k, from, to);
    AppendListsOnce(w.lists[n].ins, Incoming(w, n), k);
    AppendListsOnce(w.lists[n].outs, Outgoing(w, n), k);
    assert Incoming(v, n) == Incoming(w, n) + if n == to then {k} else {};
    assert Outgoing(v, n) == Outgoing(w, n) + if n == from then {k} else {};
  }

  lemma AttachedKeepsDual(w: Wiring, k: Link, from: Node, to: Node)
    requires Dual(w) && from in w.lists && to in w.lists && k !in w.ends
    ensures Dual(Attached(w, k, from, to))
  {
    forall n | n in w.lists
      ensures ListsItsLinks(Attached(w, k, from, to), n)
    {
      assert ListsItsLinks(w, n);
      AttachedKeepsLists(w, k, from, to, n);
    }
  }

  lemma LinkedKeepsDual(w: Wiring, k: Link, from: Node, to: Node)
    requires Dual(w) && from in w.lists && to in w.lists
    ensures Dual(Linked(w, k, from, to))
  {
    UnlinkedKeepsDual(w, {k});
    AttachedKeepsDual(Unlinked(w, {k}), k, from, to);
  }

  /** A new node may not list any links: no link of the graph can end there. */
  lemma NodeAddedKeepsDual(w: Wiring, x: Node, lists: Lists)
    requires Dual(w) && x !in w.lists
    ensures Dual(NodeAdded(w, x, lists)) <==> lists == Lists([], [])
  {
    var v := NodeAdded(w, x, lists);
    assert Incoming(v, x) == {} && Outgoing(v, x) == {};
    assert ListsItsLinks(v, x) <==> lists == Lists([], []) by {
      OnlyTheEmptyListIsEmpty(lists.ins);
      OnlyTheEmptyListIsEmpty(lists.outs);
    }
    forall n | n in w.lists
      ensures ListsItsLinks(v, n)
    {
      assert ListsItsLinks(w, n);
      assert Incoming(v, n) == Incoming(w, n) && Outgoing(v, n) == Outgoing(w, n);
    }
  }

  lemma OnlyTheEmptyListIsEmpty<T>(list: seq<T>)
    ensures ListsOnce(list, {}) <==> list == []
  {
    if list != [] {
      assert list[0] in Entries(list);
    }
  }

  lemma NodeRemovedKeepsDual(w: Wiring, x: Node)
    requires Dual(w)
    ensures Dual(NodeRemoved(w, x))
  {
    var gone := Incoming(w, x) + Outgoing(w, x);
    var u, v := Unlinked(w, gone), NodeRemoved(w, x);
    UnlinkedKeepsDual(w, gone);
    forall n | n in v.lists
      ensures ListsItsLinks(v, n)
    {
      assert ListsItsLinks(u, n);
      assert Incoming(v, n) == Incoming(u, n) && Outgoing(v, n) == Outgoing(u, n);
    }
  }

  class Topology {
    var nodes: seq<Node>
    var target: Node?
    ghost var wires: Wiring  // the wiring that the nodes and links realise

    /** The objects of the graph hold what wires says. */
    ghost predicate Realises()
      reads this`nodes, this`wires, nodes`inLinks, nodes`outLinks, wires.ends.Keys`srcNode, wires.ends.Keys`destNode
    {
      && (forall n :: n in wires.lists ==> n in nodes)
      && (forall n :: n in nodes ==> n in wires.lists && wires.lists[n] == Lists(n.inLinks, n.outLinks))
      && (forall l :: l in wires.ends ==> wires.ends[l] == Ends(l.srcNode, l.destNode))
    }

    ghost predicate Valid()
      reads this`nodes, this`wires, nodes`inLinks, nodes`outLinks, wires.ends.Keys`srcNode, wires.ends.Keys`destNode
    {
      Distinct(nodes) && OrderedById(nodes) && Realises() && Dual(wires)
    }

    constructor ()
      ensures Valid() && nodes == [] && target == null && wires == Wiring(map[], map[])
    {
      nodes, target, wires := [], null, Wiring(map[], map[]);
    }

    // ----- Looking nodes up -----

    /** The first position whose node does not precede id. */
    method LowerBound(id: ModuleId) returns (i: nat)
      requires OrderedById(nodes)
      ensures i <= |nodes|
      ensures forall k :: 0 <= k < i ==> OrderKey(nodes[k].moduleId) < OrderKey(id)
      ensures forall k :: i <= k < |nodes| ==> OrderKey(id) <= OrderKey(nodes[k].moduleId)
    {
      i := 0;
      var hi := |nodes|;
      while i < hi
        invariant 0 <= i <= hi <= |nodes|
        invariant forall k :: 0 <= k < i ==> OrderKey(nodes[k].moduleId) < OrderKey(id)
        invariant forall k :: hi <= k < |nodes| ==> OrderKey(id) <= OrderKey(nodes[k].moduleId)
      {
        var mid := (i + hi) / 2;
        if OrderKey(nodes[mid].moduleId) < OrderKey(id) {
          i := mid + 1;
        } else {
          hi := mid;
        }
      }
    }

    /** Finds a node exactly when one with that id is present. */
    method GetNodeFor(id: ModuleId) returns (n: Node?)
      requires OrderedById(nodes)
      ensures n != null <==> exists m :: m in nodes && m.moduleId == id
      ensures n != null ==> n in nodes && n.moduleId == id
    {
      var i := LowerBound(id);
      if i == |nodes| || nodes[i].moduleId != id {
        n := null;
      } else {
        n := nodes[i];
      }
    }

    // ----- Editing -----

    /** The graph stays valid exactly if the node is new and brings no links. */
    method AddNode(node: Node) returns (pos: nat)
      requires Valid()
      modifies this`nodes, this`wires
      ensures pos <= |old(nodes)| && nodes == Insert(old(nodes), node, pos) && OrderedById(nodes)
      ensures wires == NodeAdded(old(wires), node, Lists(node.inLinks, node.outLinks))
      ensures Valid() <==> node !in old(nodes) && node.inLinks == node.outLinks == []
    {
      pos := InsertNode(node);
      InsertContents(old(nodes), node, pos);
      wires := NodeAdded(wires, node, Lists(node.inLinks, node.outLinks));
      if node in old(nodes) {
        InsertedTwice(old(nodes), node, pos);
      } else {
        NodeAddedKeepsDual(old(wires), node, Lists(node.inLinks, node.outLinks));
      }
    }

    /** Puts node where the order of nodes[] wants it. */
    method InsertNode(node: Node) returns (pos: nat)
      requires OrderedById(nodes)
      modifies this`nodes
      ensures pos <= |old(nodes)| && nodes == Insert(old(nodes), node, pos)
      ensures OrderedById(nodes)
    {
      if node.moduleId == NO_MODULE {
        pos := |nodes|;
        nodes := nodes + [node];
      } else {
        pos := LowerBound(node.moduleId);
        nodes := nodes[..pos] + [node] + nodes[pos..];
      }
      assert nodes == Insert(old(nodes), node, pos);
      InsertKeepsOrderById(old(nodes), node, pos);
    }

    method UnlinkFromSourceNode(link: Link)
      requires link.srcNode != null && link in link.srcNode.outLinks
      modifies link.srcNode`outLinks
      ensures link.srcNode.outLinks == Erase(old(link.srcNode.outLinks), link)
    {
      var i := Find(link.srcNode.outLinks, link);
      EraseAt(link.srcNode.outLinks, link, i);
      link.srcNode.outLinks := link.srcNode.outLinks[..i] + link.srcNode.outLinks[i + 1..];
    }

    method UnlinkFromDestNode(link: Link)
      requires link.destNode != null && link in link.destNode.inLinks
      modifies link.destNode`inLinks
      ensures link.destNode.inLinks == Erase(old(link.destNode.inLinks), link)
    {
      var i := Find(link.destNode.inLinks, link);
      EraseAt(link.destNode.inLinks, link, i);
      link.destNode.inLinks := link.destNode.inLinks[..i] + link.destNode.inLinks[i + 1..];
    }

    /** Lists are duplicate-free, and a node lists link exactly when it is that link's source, or destination. */
    ghost predicate ListedByItsEnds(link: Link)
      reads this`nodes, nodes`inLinks, nodes`outLinks, link`srcNode, link`destNode
    {
      && (link.srcNode != null ==> link.srcNode in nodes)
      && (link.destNode != null ==> link.destNode in nodes)
      && (forall n :: n in nodes ==> Distinct(n.inLinks) && Distinct(n.outLinks))
      && (forall n :: n in nodes ==> (link in n.outLinks <==> link.srcNode == n))
      && (forall n :: n in nodes ==> (link in n.inLinks <==> link.destNode == n))
    }

    /** A link that is either new or in the graph: what the source asserts when it unlinks one. */
    ghost predicate Linkable(link: Link)
      reads this`wires, link`srcNode, link`destNode
    {
      link in wires.ends || (link.srcNode == null && link.destNode == null)
    }

    lemma LinkableIsListed(link: Link)
      requires Valid() && Linkable(link)
      ensures ListedByItsEnds(link)
    {
      forall n | n in nodes
        ensures Distinct(n.inLinks) && Distinct(n.outLinks)
        ensures link in n.outLinks <==> link.srcNode == n
        ensures link in n.inLinks <==> link.destNode == n
      {
        assert ListsItsLinks(wires, n);
        assert link in n.outLinks <==> link in Entries(n.outLinks);
        assert link in n.inLinks <==> link in Entries(n.inLinks);
      }
    }

    /** Takes link out of the list of each end it has. */
    method Detach(link: Link)
      requires ListedByItsEnds(link)
      modifies nodes`inLinks, nodes`outLinks
      ensures forall n :: n in nodes ==>
        n.inLinks == Minus(old(n.inLinks), {link}) && n.outLinks == Minus(old(n.outLinks), {link})
    {
      if link.srcNode != null {
        UnlinkFromSourceNode(link);
      }
      if link.destNode != null {
        UnlinkFromDestNode(link);
      }
      forall n | n in nodes
        ensures n.outLinks == Minus(old(n.outLinks), {link}) && n.inLinks == Minus(old(n.inLinks), {link})
      {
        EraseOne(old(n.outLinks), link);
        EraseOne(old(n.inLinks), link);
      }
    }

    /** Removes link from the graph, if it is there. */
    method Unlink(link: Link)
      requires Realises() && ListedByItsEnds(link)
      modifies nodes`inLinks, nodes`outLinks, this`wires
      ensures Realises() && wires == Unlinked(old(wires), {link})
      ensures forall n :: n in nodes ==>
        n.inLinks == Minus(old(n.inLinks), {link}) && n.outLinks == Minus(old(n.outLinks), {link})
    {
      Detach(link);
      wires := Unlinked(wires, {link});
    }

    /** Records the new ends of a link that is not in the graph. */
    method Attach(link: Link, srcNode: Node, destNode: Node)
      requires Realises() && srcNode in nodes && destNode in nodes && link !in wires.ends
      modifies link`srcNode, link`destNode, srcNode`outLinks, destNode`inLinks, this`wires
      ensures Realises() && wires == Attached(old(wires), link, srcNode, destNode)
      ensures link.srcNode == srcNode && link.destNode == destNode
      ensures srcNode.outLinks == old(srcNode.outLinks) + [link] && destNode.inLinks == old(destNode.inLinks) + [link]
    {
      Connect(link, srcNode, destNode);
      wires := Attached(wires, link, srcNode, destNode);
    }

    method Connect(link: Link, srcNode: Node, destNode: Node)
      modifies link`srcNode, link`destNode, srcNode`outLinks, destNode`inLinks
      ensures link.srcNode == srcNode && link.destNode == destNode
      ensures srcNode.outLinks == old(srcNode.outLinks) + [link]
      ensures destNode.inLinks == old(destNode.inLinks) + [link]
    {
      link.srcNode := srcNode;
      link.destNode := destNode;
      srcNode.outLinks := srcNode.outLinks + [link];
      destNode.inLinks := destNode.inLinks + [link];
    }

    /** Moves link to its new ends, from wherever it was. */
    method Relink(link: Link, srcNode: Node, destNode: Node)
      requires Valid() && ListedByItsEnds(link) && srcNode in nodes && destNode in nodes
      requires Dual(Linked(wires, link, srcNode, destNode))
      modifies link`srcNode, link`destNode, nodes`inLinks, nodes`outLinks, this`wires
      ensures Valid() && wires == Linked(old(wires), link, srcNode, destNode)
    {
      Unlink(link);
      Attach(link, srcNode, destNode);
    }

    /** Adds a link, or reconnects one that is already in the graph. */
    method AddLink(link: Link, srcNode: Node, destNode: Node)
      requires Valid() && srcNode in nodes && destNode in nodes && Linkable(link)
      modifies link`srcNode, link`destNode, nodes`inLinks, nodes`outLinks, this`wires
      ensures link.srcNode == srcNode && link.destNode == destNode
      ensures srcNode.outLinks == Minus(old(srcNode.outLinks), {link}) + [link]
      ensures destNode.inLinks == Minus(old(destNode.inLinks), {link}) + [link]
      ensures forall n :: n in nodes && n != srcNode ==> n.outLinks == Minus(old(n.outLinks), {link})
      ensures forall n :: n in nodes && n != destNode ==> n.inLinks == Minus(old(n.inLinks), {link})
      ensures wires == Linked(old(wires), link, srcNode, destNode) && wires.ends.Keys == old(wires).ends.Keys + {link}
      ensures Valid()
    {
      LinkableCanBeLinked(link, srcNode, destNode);
      ghost var before := wires;
      Relink(link, srcNode, destNode);
      assert link in wires.ends;
      forall n | n in nodes
        ensures var outs := Minus(old(n.outLinks), {link}); n.outLinks == if n == srcNode then outs + [link] else outs
        ensures var ins := Minus(old(n.inLinks), {link}); n.inLinks == if n == destNode then ins + [link] else ins
      {
        assert wires.lists[n] == Lists(n.inLinks, n.outLinks) && before.lists[n] == old(Lists(n.inLinks, n.outLinks));
      }
    }

    lemma LinkableCanBeLinked(link: Link, srcNode: Node, destNode: Node)
      requires Valid() && srcNode in nodes && destNode in nodes && Linkable(link)
      ensures ListedByItsEnds(link) && Dual(Linked(wires, link, srcNode, destNode))
      ensures Linked(wires, link, srcNode, destNode).ends.Keys == wires.ends.Keys + {link}
    {
      LinkableIsListed(link);
      LinkedKeepsDual(wires, link, srcNode, destNode);
      LinkedLinks(wires, link, srcNode, destNode);
    }

    method DeleteLink(link: Link)
      requires Valid() && link in wires.ends
      modifies nodes`inLinks, nodes`outLinks, this`wires
      ensures forall n :: n in nodes ==>
        n.inLinks == Minus(old(n.inLinks), {link}) && n.outLinks == Minus(old(n.outLinks), {link})
      ensures wires == Unlinked(old(wires), {link}) && wires.ends.Keys == old(wires).ends.Keys - {link}
      ensures Valid()
    {
      LinkableIsListed(link);
      UnlinkedKeepsDual(wires, {link});
      UnlinkedLinks(wires, {link});
      Unlink(link);
    }

    /** The first loop of deleteNode: the links of a node leave the lists of their destinations. */
    method UnlinkFromDestinations(links: seq<Link>)
      requires Distinct(links)
      requires forall n :: n in nodes ==> Distinct(n.inLinks)
      requires forall l :: l in links ==> l.destNode != null && l.destNode in nodes
      requires forall n, l :: n in nodes && l in links ==> (l in n.inLinks <==> l.destNode == n)
      modifies nodes`inLinks
      ensures forall n :: n in nodes ==> n.inLinks == Minus(old(n.inLinks), Entries(links))
    {
      forall n | n in nodes
        ensures n.inLinks == Minus(n.inLinks, {})
      {
        MinusNothing(n.inLinks, {});
      }
      assert Entries(links[..0]) == {};
      for i := 0 to |links|
        invariant forall n :: n in nodes ==> n.inLinks == Minus(old(n.inLinks), Entries(links[..i]))
      {
        var link := links[i];
        ghost var seen := Entries(links[..i]);
        assert link !in seen && Entries(links[..i + 1]) == seen + {link};
        forall n | n in nodes
          ensures Distinct(n.inLinks) && (link in n.inLinks <==> link.destNode == n)
        {
          MinusContents(old(n.inLinks), seen);
          assert link in n.inLinks <==> link in Entries(n.inLinks);
        }
        label before:
        UnlinkFromDestNode(link);
        forall n | n in nodes
          ensures n.inLinks == Minus(old(n.inLinks), seen + {link})
        {
          EraseOne(old@before(n.inLinks), link);
          MinusMinus(old(n.inLinks), seen, {link});
        }
      }
      assert links[..|links|] == links;
    }

    /** The second loop: they leave the lists of their sources. */
    method UnlinkFromSources(links: seq<Link>)
      requires Distinct(links)
      requires forall n :: n in nodes ==> Distinct(n.outLinks)
      requires forall l :: l in links ==> l.srcNode != null && l.srcNode in nodes
      requires forall n, l :: n in nodes && l in links ==> (l in n.outLinks <==> l.srcNode == n)
      modifies nodes`outLinks
      ensures forall n :: n in nodes ==> n.outLinks == Minus(old(n.outLinks), Entries(links))
    {
      forall n | n in nodes
        ensures n.outLinks == Minus(n.outLinks, {})
      {
        MinusNothing(n.outLinks, {});
      }
      assert Entries(links[..0]) == {};
      for i := 0 to |links|
        invariant forall n :: n in nodes ==> n.outLinks == Minus(old(n.outLinks), Entries(links[..i]))
      {
        var link := links[i];
        ghost var seen := Entries(links[..i]);
        assert link !in seen && Entries(links[..i + 1]) == seen + {link};
        forall n | n in nodes
          ensures Distinct(n.outLinks) && (link in n.outLinks <==> link.srcNode == n)
        {
          MinusContents(old(n.outLinks), seen);
          assert link in n.outLinks <==> link in Entries(n.outLinks);
        }
        label before:
        UnlinkFromSourceNode(link);
        forall n | n in nodes
          ensures n.outLinks == Minus(old(n.outLinks), seen + {link})
        {
          EraseOne(old@before(n.outLinks), link);
          MinusMinus(old(n.outLinks), seen, {link});
        }
      }
      assert links[..|links|] == links;
    }

    /** What deleteNode relies on: the links at node are listed by their two ends, and only there. */
    ghost predicate LinksOfNodeListed(node: Node)
      reads this`nodes, nodes`inLinks, nodes`outLinks, node`inLinks, node`outLinks,
            node.inLinks`srcNode, node.inLinks`destNode, node.outLinks`srcNode, node.outLinks`destNode
    {
      && (forall n :: n in nodes ==> Distinct(n.inLinks) && Distinct(n.outLinks))
      && (forall l :: l in node.inLinks ==> ListedByItsEnds(l) && l.srcNode != null && l.destNode == node)
      && (forall l :: l in node.outLinks ==> ListedByItsEnds(l) && l.srcNode == node && l.destNode != null)
    }

    lemma ValidLinksOfNodeListed(node: Node)
      requires Valid() && node in nodes
      ensures LinksOfNodeListed(node)
      ensures Entries(node.inLinks) == Incoming(wires, node) && Entries(node.outLinks) == Outgoing(wires, node)
    {
      assert ListsItsLinks(wires, node);
      forall n | n in nodes
        ensures Distinct(n.inLinks) && Distinct(n.outLinks)
      {
        assert ListsItsLinks(wires, n);
      }
      forall l | l in node.inLinks || l in node.outLinks
        ensures ListedByItsEnds(l) && l in wires.ends
      {
        assert l in Entries(node.inLinks) || l in Entries(node.outLinks);
        LinkableIsListed(l);
      }
      forall l | l in node.inLinks
        ensures l.srcNode != null && l.destNode == node
      {
        assert l in Entries(node.inLinks) && l in wires.ends;
      }
      forall l | l in node.outLinks
        ensures l.srcNode == node && l.destNode != null
      {
        assert l in Entries(node.outLinks) && l in wires.ends;
      }
    }

    /** Empties the lists of node; every other node forgets the links it shared with node. */
    method UnlinkNode(node: Node)
      requires node in nodes && LinksOfNodeListed(node)
      modifies nodes`inLinks, nodes`outLinks
      ensures node.inLinks == node.outLinks == []
      ensures forall n :: n in nodes && n != node ==>
        && n.inLinks == Minus(old(n.inLinks), old(Entries(node.outLinks)))
        && n.outLinks == Minus(old(n.outLinks), old(Entries(node.inLinks) - Entries(node.outLinks)))
    {
      UnlinkFromDestinations(node.outLinks);
      node.outLinks := [];
      MinusContents(old(node.inLinks), old(Entries(node.outLinks)));
      forall l | l in node.inLinks
        ensures l in old(node.inLinks) && l.srcNode != node
      {
        assert l in Entries(node.inLinks);
      }
      UnlinkFromSources(node.inLinks);
      node.inLinks := [];
    }

    method DropNode(node: Node)
      requires Realises() && node in nodes && LinksOfNodeListed(node)
      requires Entries(node.inLinks) == Incoming(wires, node) && Entries(node.outLinks) == Outgoing(wires, node)
      modifies this`wires, nodes`inLinks, nodes`outLinks
      ensures wires == NodeRemoved(old(wires), node)
      ensures forall n :: n in wires.lists <==> n in nodes && n != node
      ensures forall n :: n in nodes && n != node ==> wires.lists[n] == Lists(n.inLinks, n.outLinks)
      ensures forall l :: l in wires.ends ==> wires.ends[l] == Ends(l.srcNode, l.destNode)
      ensures
        var gone := old(Entries(node.inLinks) + Entries(node.outLinks));
        forall n :: n in nodes && n != node ==>
          n.inLinks == Minus(old(n.inLinks), gone) && n.outLinks == Minus(old(n.outLinks), gone)
    {
      ghost var ins, outs := Entries(node.inLinks), Entries(node.outLinks);
      UnlinkNode(node);
      forall n | n in nodes && n != node
        ensures n.inLinks == Minus(old(n.inLinks), ins + outs) && n.outLinks == Minus(old(n.outLinks), ins + outs)
      {
        MinusSame(old(n.inLinks), outs, ins + outs);
        MinusSame(old(n.outLinks), ins - outs, ins + outs);
      }
      wires := NodeRemoved(wires, node);
    }

    /** The node goes, and all other nodes forget the links that started or ended there, and no others. */
    method DeleteNode(node: Node)
      requires Valid() && node in nodes
      modifies this`nodes, this`wires, nodes`inLinks, nodes`outLinks
      ensures nodes == Erase(old(nodes), node) && wires == NodeRemoved(old(wires), node)
      ensures
        var gone := old(Entries(node.inLinks) + Entries(node.outLinks));
        && wires.ends.Keys == old(wires.ends.Keys) - gone
        && forall n :: n in old(nodes) && n != node ==>
             n.inLinks == Minus(old(n.inLinks), gone) && n.outLinks == Minus(old(n.outLinks), gone)
      ensures Valid()
    {
      ValidLinksOfNodeListed(node);
      NodeRemovedKeepsDual(wires, node);
      NodeRemovedLinks(wires, node);
      DropNode(node);
      RemoveFromNodes(node);
    }

    method RemoveFromNodes(node: Node)
      requires Distinct(nodes) && OrderedById(nodes) && node in nodes
      modifies this`nodes
      ensures nodes == Erase(old(nodes), node) && Distinct(nodes) && OrderedById(nodes)
      ensures forall n :: n in nodes <==> n in old(nodes) && n != node
    {
      var i := Find(nodes, node);
      EraseAt(nodes, node, i);
      EraseKeepsOrderById(nodes, node, i);
      nodes := nodes[..i] + nodes[i + 1..];
    }

    // ----- Shortest paths -----

    /** Links that a search follows: enabled ones that leave an enabled node. */
    ghost function UsableLinks(): set<Link>
      reads this`nodes, this`wires, nodes`enabled,
            wires.ends.Keys`srcNode, wires.ends.Keys`destNode, wires.ends.Keys`enabled
    {
      set l | l in wires.ends && l.srcNode in nodes && l.destNode in nodes && l.enabled && l.srcNode.enabled
    }

    /** Those of them that can belong to a walk of finite cost to t. */
    ghost function RoutingLinks(t: Node): set<Link>
      reads this`nodes, this`wires, nodes`enabled, nodes`weight, wires.ends.Keys`srcNode, wires.ends.Keys`destNode,
            wires.ends.Keys`enabled, wires.ends.Keys`weight
    {
      set l | l in UsableLinks() && l.weight.Fin? && (l.destNode == t || (l.destNode as Node).weight.Fin?)
    }

    /** The nodes from which the given links lead to t. */
    ghost function LeadingTo(links: set<Link>, t: Node): set<Node>
      reads this`nodes, this`wires
    {
      set n | n in nodes && exists p :: Chain(wires.ends, links, n, p, t)
    }

    /** The nodes that the breadth-first search towards t meets. */
    ghost function Upstream(t: Node): set<Node>
      reads this`nodes, this`wires, nodes`enabled,
            wires.ends.Keys`srcNode, wires.ends.Keys`destNode, wires.ends.Keys`enabled
    {
      LeadingTo(UsableLinks(), t)
    }

    /** The nodes that the weighted search towards t meets. */
    ghost function Routed(t: Node): set<Node>
      reads this`nodes, this`wires, nodes`enabled, nodes`weight, wires.ends.Keys`srcNode, wires.ends.Keys`destNode,
            wires.ends.Keys`enabled, wires.ends.Keys`weight
    {
      LeadingTo(RoutingLinks(t), t)
    }

    /** The links that a search meets which meets the given nodes. */
    ghost function LinksInto(met: set<Node>): set<Link>
      reads this`nodes, this`wires, nodes`enabled,
            wires.ends.Keys`srcNode, wires.ends.Keys`destNode, wires.ends.Keys`enabled
    {
      set l | l in UsableLinks() && l.destNode in met
    }

    lemma LeadingToIsClosed(links: set<Link>, t: Node)
      requires Realises() && t in nodes && links <= UsableLinks()
      ensures t in LeadingTo(links, t)
      ensures forall l :: l in links && l.destNode in LeadingTo(links, t) ==> l.srcNode in LeadingTo(links, t)
    {
      assert Chain(wires.ends, links, t, [], t);
      forall l | l in links && l.destNode in LeadingTo(links, t)
        ensures l.srcNode in LeadingTo(links, t)
      {
        var p :| Chain(wires.ends, links, l.destNode, p, t);
        assert ([l] + p)[1..] == p;
        assert Chain(wires.ends, links, l.srcNode, [l] + p, t);
      }
    }

    /** The graph as the weighted search sees it. */
    ghost function WeightedGraph(t: Node): Graph<Node, Link>
      reads this`nodes, this`wires, nodes`enabled, nodes`weight, wires.ends.Keys`srcNode, wires.ends.Keys`destNode,
            wires.ends.Keys`enabled, wires.ends.Keys`weight
    {
      var links := LinksInto(Routed(t));
      Graph(Entries(nodes), links,
            map l | l in links :: var n: Node := l.srcNode; n,
            map l | l in links :: var n: Node := l.destNode; n,
            map l | l in links :: l.weight,
            map n | n in nodes :: if n in Routed(t) then n.weight else ZERO,
            t)
    }

    /** The graph as the breadth-first search sees it, every link counting as one hop. */
    ghost function HopGraph(t: Node): Graph<Node, Link>
      reads this`nodes, this`wires, nodes`enabled, wires.ends.Keys`srcNode, wires.ends.Keys`destNode,
            wires.ends.Keys`enabled
    {
      var links := LinksInto(Upstream(t));
      Graph(Entries(nodes), links,
            map l | l in links :: var n: Node := l.srcNode; n,
            map l | l in links :: var n: Node := l.destNode; n,
            map l | l in links :: Fin(1.0),
            map n | n in nodes :: ZERO,
            t)
    }

    /** The links of g are those that a search towards t meets which meets the given nodes. */
    ghost predicate Pictures(g: Graph<Node, Link>, t: Node, met: set<Node>)
      reads this`nodes, this`wires, nodes`enabled, wires.ends.Keys`srcNode, wires.ends.Keys`destNode,
            wires.ends.Keys`enabled
    {
      && WellFormed(g) && g.nodes == Entries(nodes) && g.links == LinksInto(met) && g.target == t
      && forall l :: l in g.links ==> g.src[l] == l.srcNode && g.dst[l] == l.destNode
    }

    /** Its walks are chains of usable links that lead to t. */
    lemma {:induction false} WalksAreChains(g: Graph<Node, Link>, t: Node, met: set<Node>, n: Node, p: seq<Link>)
      requires Realises() && n in nodes && Pictures(g, t, met) && IsWalk(g, n, p)
      ensures Chain(wires.ends, UsableLinks(), n, p, t)
      decreases |p|
    {
      if p == [] {
      } else {
        WalksAreChains(g, t, met, g.dst[p[0]], p[1..]);
      }
    }

    /** And among them are all that consist of the links by which the nodes are met. */
    lemma {:induction false} ChainsAreWalks(g: Graph<Node, Link>, t: Node, links: set<Link>, n: Node, p: seq<Link>)
      requires Realises() && n in nodes && links <= UsableLinks() && Pictures(g, t, LeadingTo(links, t))
      requires Chain(wires.ends, links, n, p, t)
      ensures IsWalk(g, n, p)
      decreases |p|
    {
      if p == [] {
      } else {
        var next: Node := p[0].destNode;
        ChainsAreWalks(g, t, links, next, p[1..]);
        assert next in LeadingTo(links, t);
      }
    }

    lemma {:induction false} RoutedChain(links: set<Link>, routing: set<Link>, n: Node, p: seq<Link>, t: Node)
      requires Chain(wires.ends, links, n, p, t) && forall l :: l in p ==> l in routing
      ensures Chain(wires.ends, routing, n, p, t)
      decreases |p|
    {
      if p == [] {
      } else {
        RoutedChain(links, routing, wires.ends[p[0]].dst, p[1..], t);
      }
    }

    /** A chain to t that is no walk of the weighted graph has an infinite weight on it: it costs infinity. */
    lemma ChainIsWalkOrInfinite(t: Node, n: Node, p: seq<Link>)
      requires Realises() && t in nodes && n in nodes && ProperWeights(t)
      requires Chain(wires.ends, UsableLinks(), n, p, t)
      ensures Pictures(WeightedGraph(t), t, Routed(t))
      ensures IsWalk(WeightedGraph(t), n, p) || exists l :: l in p && l in UsableLinks() && l !in RoutingLinks(t)
    {
      WeightedGraphPictures(t);
      ChainOfUsableLinks(UsableLinks(), n, p, t);
      if forall l :: l in p ==> l in RoutingLinks(t) {
        RoutedChain(UsableLinks(), RoutingLinks(t), n, p, t);
        ChainsAreWalks(WeightedGraph(t), t, RoutingLinks(t), n, p);
      }
    }

    lemma {:induction false} ChainOfUsableLinks(links: set<Link>, n: Node, p: seq<Link>, t: Node)
      requires Chain(wires.ends, links, n, p, t)
      ensures forall l :: l in p ==> l in links
      decreases |p|
    {
      if p == [] {
      } else {
        ChainOfUsableLinks(links, wires.ends[p[0]].dst, p[1..], t);
      }
    }

    /** Every link of such a graph is listed by its destination. */
    lemma PicturedLinks(g: Graph<Node, Link>, t: Node, met: set<Node>)
      requires Valid() && Pictures(g, t, met)
      ensures forall l :: l in g.links ==> l in g.dst[l].inLinks
    {
      forall l | l in g.links
        ensures l in g.dst[l].inLinks
      {
        LinkableIsListed(l);
      }
    }

    /** A link that a node met lists belongs to the graph exactly if it and its source are enabled. */
    lemma ListedLinkIsPictured(g: Graph<Node, Link>, t: Node, met: set<Node>, n: Node, l: Link)
      requires Valid() && Pictures(g, t, met) && n in met && n in nodes && l in n.inLinks
      ensures l in wires.ends && l.srcNode in nodes && l.destNode == n
      ensures l in g.links <==> l.enabled && l.srcNode.enabled
    {
      ValidLinksOfNodeListed(n);
      assert l in Entries(n.inLinks);
    }

    /** What the weighted search asserts about the weights of the nodes and links that it meets. */
    ghost predicate ProperWeights(t: Node)
      reads this`nodes, this`wires, nodes`enabled, nodes`weight, wires.ends.Keys`srcNode, wires.ends.Keys`destNode,
            wires.ends.Keys`enabled, wires.ends.Keys`weight
    {
      && (forall n :: n in Routed(t) ==> ZERO.AtMost(n.weight))
      && (forall l :: l in LinksInto(Routed(t)) ==> ZERO.Less(l.weight))
    }

    ghost function Distances(): map<Node, Dist>
      reads this`nodes, nodes`dist
    {
      map n | n in nodes :: n.dist
    }

    ghost function OutPaths(): map<Node, Option<Link>>
      reads this`nodes, nodes`outPath
    {
      map n | n in nodes :: if n.outPath == null then None else Some(n.outPath)
    }

    /** The labels held by the nodes are those of s. */
    ghost predicate Shows(s: State<Node, Link>)
      reads this`nodes, nodes`dist, nodes`outPath
    {
      Distances() == s.D && OutPaths() == s.P
    }

    /** Both searches begin by forgetting all labels. */
    method ResetLabels(t: Node)
      requires t in nodes
      modifies nodes`dist, nodes`outPath
      ensures forall n :: n in nodes ==> n.dist == (if n == t then ZERO else Inf) && n.outPath == null
    {
      for i := 0 to |nodes|
        invariant forall k :: 0 <= k < i ==> nodes[k].dist == Inf && nodes[k].outPath == null
      {
        nodes[i].dist := Inf;
        nodes[i].outPath := null;
      }
      t.dist := ZERO;
    }

    /** g describes link, which ends at dest, as the weighted search towards t sees it. */
    ghost predicate Describes(g: Graph<Node, Link>, t: Node, dest: Node, link: Link)
      reads this`nodes, nodes`enabled, dest`weight, link`srcNode, link`destNode, link`enabled, link`weight
    {
      && WellFormed(g) && g.nodes == Entries(nodes) && g.target == t && dest in nodes
      && link.srcNode in nodes && link.destNode == dest
      && (link in g.links <==> link.enabled && link.srcNode.enabled)
      && (link in g.links ==>
            g.src[link] == link.srcNode && g.dst[link] == dest && g.linkWeight[link] == link.weight)
      && (dest != t ==> g.nodeWeight[dest] == dest.weight)
    }

    /** The distance that link offers its source, or nothing if the search may not use the link. */
    method OfferWeighted(ghost g: Graph<Node, Link>, t: Node, dest: Node, link: Link) returns (offer: Option<Dist>)
      requires Describes(g, t, dest, link)
      ensures offer.Some? <==> link in g.links
      ensures offer.Some? ==> offer.value == NewDist(g, Distances(), link)
      ensures offer.Some? <==> link.enabled && link.srcNode.enabled
      ensures offer.Some? ==> offer.value == if dest == t then dest.dist.Plus(link.weight)
                                             else dest.dist.Plus(link.weight).Plus(dest.weight)
    {
      if !link.enabled {
        return None;
      }
      if !link.srcNode.enabled {
        return None;
      }
      var newdist := dest.dist.Plus(link.weight);
      if dest != t {
        newdist := newdist.Plus(dest.weight);
      }
      return Some(newdist);
    }

    /** Where a node at distance d is inserted into the sorted queue. */
    method FindInsertionPoint(q: seq<Node>, d: Dist) returns (i: nat)
      requires forall n :: n in q ==> n in nodes
      ensures InsertionPoint(q, Distances(), d, i)
    {
      i := 0;
      while i < |q| && !d.Less(q[i].dist)
        invariant i <= |q|
        invariant forall k :: 0 <= k < i ==> !d.Less(q[k].dist)
      {
        i := i + 1;
      }
    }

    /** Gives src its new labels and its new place in the queue. */
    method Relabel(src: Node, newdist: Dist, link: Link, q: seq<Node>) returns (q': seq<Node>, pos: nat)
      requires src in nodes && forall n :: n in q ==> n in nodes
      modifies src`dist, src`outPath
      ensures Distances() == old(Distances())[src := newdist]
      ensures OutPaths() == old(OutPaths())[src := Some(link)]
      ensures
        var r := Unqueued<Node>(q, src, old(src.dist).Fin?);
        && (forall n :: n in r ==> n in nodes)
        && InsertionPoint(r, old(Distances()), newdist, pos) && q' == Insert<Node>(r, src, pos)
    {
      q' := q;
      if src.dist != Inf {
        q' := Remove<Node>(q, src);
        RemoveContents<Node>(q, src);
        forall n | n in q'
          ensures n in nodes
        {
          assert n in Entries(q');
          assert n in Entries(q);
        }
      }
      pos := FindInsertionPoint(q', newdist);
      src.dist := newdist;
      src.outPath := link;
      q' := q'[..pos] + [src] + q'[pos..];
    }

    /** The body of the weighted search's inner loop: looking at one link into dest. */
    method LookWeighted(ghost g: Graph<Node, Link>, t: Node, dest: Node, link: Link,
                        q: seq<Node>, ghost s: State<Node, Link>)
      returns (q': seq<Node>, ghost pos: nat)
      requires Describes(g, t, dest, link) && Shows(s) && q == s.q && forall n :: n in q ==> n in nodes
      modifies nodes`dist, nodes`outPath
      ensures LookedAt(g, s, link, pos)
      ensures Shows(Look(g, s, link, pos)) && q' == Look(g, s, link, pos).q
    {
      var offer := OfferWeighted(g, t, dest, link);
      q', pos := q, 0;
      if offer.Some? && offer.value != Inf && offer.value.Less(link.srcNode.dist) {
        var i;
        q', i := Relabel(link.srcNode, offer.value, link, q);
        pos := i;
      }
    }

    /** Looks at the i-th link into dest. */
    method ScanOneWeighted(ghost g: Graph<Node, Link>, t: Node, dest: Node, i: nat,
                           q: seq<Node>, ghost s: State<Node, Link>)
      returns (q': seq<Node>, ghost s': State<Node, Link>)
      requires i < |dest.inLinks| && Describes(g, t, dest, dest.inLinks[i])
      requires Scanning(g, s, dest, Entries(dest.inLinks[..i])) && g.nodes == Entries(nodes) && Shows(s) && q == s.q
      modifies nodes`dist, nodes`outPath
      ensures Scanning(g, s', dest, Entries(dest.inLinks[..i + 1])) && Shows(s') && q' == s'.q && s'.done == s.done
    {
      var link := dest.inLinks[i];
      ghost var pos;
      q', pos := LookWeighted(g, t, dest, link, q, s);
      s' := Look(g, s, link, pos);
      LookKeepsScanning(g, s, dest, Entries(dest.inLinks[..i]), link, pos);
      EntriesNext(dest.inLinks, i);
    }

    /** The weighted search's inner loop: all links into dest, the node popped last. */
    method ScanWeighted(ghost g: Graph<Node, Link>, t: Node, dest: Node, q: seq<Node>, ghost s: State<Node, Link>)
      returns (q': seq<Node>, ghost s': State<Node, Link>)
      requires forall l :: l in dest.inLinks ==> Describes(g, t, dest, l)
      requires Scanning(g, s, dest, {}) && g.nodes == Entries(nodes) && Shows(s) && q == s.q
      modifies nodes`dist, nodes`outPath
      ensures Scanning(g, s', dest, Entries(dest.inLinks)) && Shows(s') && q' == s'.q && s'.done == s.done
    {
      q', s' := q, s;
      ghost var all := Entries(dest.inLinks);
      assert Entries(dest.inLinks[..0]) == {};
      for i := 0 to |dest.inLinks|
        invariant Scanning(g, s', dest, Entries(dest.inLinks[..i]))
        invariant Shows(s') && q' == s'.q && s'.done == s.done
      {
        assert dest.inLinks[i] in dest.inLinks;
        q', s' := ScanOneWeighted(g, t, dest, i, q', s');
      }
      assert Entries(dest.inLinks[..|dest.inLinks|]) == all;
    }

    /** g describes every link into a node of met, and those are the nodes that the weighted search can pop. */
    ghost predicate DescribesAll(g: Graph<Node, Link>, t: Node, met: set<Node>)
      reads this`nodes, this`wires, nodes`enabled, nodes`weight, nodes`inLinks,
            wires.ends.Keys`srcNode, wires.ends.Keys`destNode, wires.ends.Keys`enabled, wires.ends.Keys`weight
    {
      && WellFormed(g) && g.nodes == Entries(nodes) && g.target == t && t in met && met <= g.nodes
      && (forall l :: l in g.links && IsRouting(g, l) ==> g.src[l] in met)
      && (forall l :: l in g.links ==> l in g.dst[l].inLinks)
      && (forall n, l :: n in met && n in nodes && l in n.inLinks ==> l in wires.ends && Describes(g, t, n, l))
    }

    /** The weights of g are those of the links and nodes that the weighted search towards t meets. */
    ghost predicate PicturesWeights(g: Graph<Node, Link>, t: Node)
      requires Pictures(g, t, Routed(t))
      reads this`nodes, this`wires, nodes`enabled, nodes`weight, wires.ends.Keys`srcNode, wires.ends.Keys`destNode,
            wires.ends.Keys`enabled, wires.ends.Keys`weight
    {
      && (forall l :: l in g.links ==> g.linkWeight[l] == l.weight)
      && (forall n :: n in Routed(t) ==> g.nodeWeight[n] == n.weight)
    }

    lemma WeightedGraphPictures(t: Node)
      requires t in nodes && ProperWeights(t)
      ensures Pictures(WeightedGraph(t), t, Routed(t)) && PicturesWeights(WeightedGraph(t), t)
    {
      assert forall l :: l in LinksInto(Routed(t)) ==> l.srcNode in nodes && l.destNode in nodes;
    }

    /** Through links that can belong to a walk of finite cost only nodes are reached that the search meets. */
    lemma RoutingLinksStartAtMetNodes(g: Graph<Node, Link>, t: Node)
      requires Realises() && t in nodes && Pictures(g, t, Routed(t)) && PicturesWeights(g, t)
      ensures t in Routed(t) && forall l :: l in g.links && IsRouting(g, l) ==> g.src[l] in Routed(t)
    {
      LeadingToIsClosed(RoutingLinks(t), t);
      forall l | l in g.links && IsRouting(g, l)
        ensures g.src[l] in Routed(t)
      {
        assert l in RoutingLinks(t);
      }
    }

    lemma PictureDescribesAll(g: Graph<Node, Link>, t: Node)
      requires Valid() && t in nodes && Pictures(g, t, Routed(t)) && PicturesWeights(g, t)
      ensures DescribesAll(g, t, Routed(t))
    {
      RoutingLinksStartAtMetNodes(g, t);
      PicturedLinks(g, t, Routed(t));
      forall n, l | n in Routed(t) && n in nodes && l in n.inLinks
        ensures l in wires.ends && Describes(g, t, n, l)
      {
        ListedLinkIsPictured(g, t, Routed(t), n, l);
      }
    }

    lemma WeightedGraphDescribesAll(t: Node)
      requires Valid() && t in nodes && ProperWeights(t)
      ensures DescribesAll(WeightedGraph(t), t, Routed(t))
    {
      WeightedGraphPictures(t);
      PictureDescribesAll(WeightedGraph(t), t);
    }

    /** One turn of the outer loop: pop the nearest node and look at all links into it. */
    method PopWeighted(ghost g: Graph<Node, Link>, t: Node, ghost met: set<Node>,
                       q: seq<Node>, ghost s: State<Node, Link>)
      returns (q': seq<Node>, ghost s': State<Node, Link>)
      requires DescribesAll(g, t, met) && Between(g, s) && Shows(s) && q == s.q != []
      modifies nodes`dist, nodes`outPath
      ensures DescribesAll(g, t, met)
      ensures Between(g, s') && Shows(s') && q' == s'.q
      ensures s'.done == s.done + {q[0]} && g.nodes - s'.done < g.nodes - s.done
    {
      ghost var described := DescribesAll(g, t, met);
      q', s' := TurnWeighted(g, t, met, q, s);
      assert DescribesAll(g, t, met) == described;
    }

    method TurnWeighted(ghost g: Graph<Node, Link>, t: Node, ghost met: set<Node>,
                        q: seq<Node>, ghost s: State<Node, Link>)
      returns (q': seq<Node>, ghost s': State<Node, Link>)
      requires DescribesAll(g, t, met) && Between(g, s) && Shows(s) && q == s.q != []
      modifies nodes`dist, nodes`outPath
      ensures Between(g, s') && Shows(s') && q' == s'.q
      ensures s'.done == s.done + {q[0]} && g.nodes - s'.done < g.nodes - s.done
    {
      var dest := q[0];
      assert dest in g.nodes - s.done;
      PopStartsScan(g, s);
      if dest != t {
        PoppedIsReached(g, s);
      }
      q', s' := ScanWeighted(g, t, dest, q[1..], Pop(s));
      ScanEnds(g, s', dest, Entries(dest.inLinks));
    }

    /** The loop of the weighted search, from its initial labels. */
    method SearchWeighted(ghost g: Graph<Node, Link>, t: Node, ghost met: set<Node>)
      returns (ghost s: State<Node, Link>)
      requires DescribesAll(g, t, met) && Shows(Start(g))
      modifies nodes`dist, nodes`outPath
      ensures ShortestTree(g, s.D, s.P) && Shows(s) && DescribesAll(g, t, met)
    {
      var q := [t];
      s := Start(g);
      StartIsBetween(g);
      while q != []
        invariant DescribesAll(g, t, met)
        invariant Between(g, s) && q == s.q && Shows(s)
        decreases g.nodes - s.done
      {
        q, s := PopWeighted(g, t, met, q, s);
      }
      EmptyQueueIsOptimal(g, s);
    }

    /** The link leaves an enabled node and is enabled itself. */
    ghost predicate IsUsable(l: Link)
      reads l`srcNode, l`destNode, l`enabled, if l.srcNode == null then {} else {l.srcNode}
    {
      l.srcNode != null && l.destNode != null && l.enabled && l.srcNode.enabled
    }

    /** What a link offers its source: its weight and that of the node passed through, on top of what is there. */
    ghost function Offer(t: Node, l: Link): Dist
      requires l.destNode != null
      reads l`destNode, l`weight, if l.destNode == null then {} else {l.destNode}
    {
      var dest: Node := l.destNode;
      dest.dist.Plus(l.weight).Plus(if dest == t then ZERO else dest.weight)
    }

    /** No usable link offers its source less than it has, and what it has is offered by its out-path. */
    ghost predicate Settled(t: Node)
      reads this`nodes, this`wires, t, nodes, wires.ends.Keys
    {
      && t.dist == ZERO
      && (forall l :: l in wires.ends && l.srcNode in nodes && l.destNode in nodes && IsUsable(l) ==>
            l.srcNode.dist.AtMost(Offer(t, l)))
      && (forall n :: n in nodes && n != t && n.dist.Fin? ==>
            && n.outPath != null && n.outPath in wires.ends && n.outPath.srcNode == n && n.outPath.destNode in nodes
            && IsUsable(n.outPath) && n.dist == Offer(t, n.outPath))
    }

    lemma ShortestTreeIsSettled(g: Graph<Node, Link>, t: Node, met: set<Node>)
      requires Valid() && DescribesAll(g, t, met) && ShortestTree(g, Distances(), OutPaths())
      ensures Settled(t)
    {
      forall n | n in nodes && n != t && n.dist.Fin?
        ensures n in met && n.outPath != null && n.outPath in wires.ends
        ensures n.outPath.srcNode == n && n.outPath.destNode in nodes
        ensures IsUsable(n.outPath) && n.dist == Offer(t, n.outPath)
      {
        OutPathIsUsable(g, t, met, n);
      }
      forall l | l in wires.ends && l.srcNode in nodes && l.destNode in nodes && IsUsable(l)
        ensures l.srcNode.dist.AtMost(Offer(t, l))
      {
        LinkableIsListed(l);
        var dest: Node := l.destNode;
        if dest.dist.Fin? {
          FiniteNodeIsMet(g, t, met, dest);
          assert dest in met && Describes(g, t, dest, l);
        }
      }
    }

    lemma OutPathIsUsable(g: Graph<Node, Link>, t: Node, met: set<Node>, n: Node)
      requires Valid() && DescribesAll(g, t, met) && ShortestTree(g, Distances(), OutPaths())
      requires n in nodes && n != t && n.dist.Fin?
      ensures n in met && n.outPath != null && n.outPath in wires.ends
      ensures n.outPath.srcNode == n && n.outPath.destNode in nodes
      ensures IsUsable(n.outPath) && n.dist == Offer(t, n.outPath)
    {
      var l := OutPaths()[n].value;
      FiniteNodeIsMet(g, t, met, n);
      var dest := g.dst[l];
      FiniteNodeIsMet(g, t, met, dest);
      assert dest in met && l in dest.inLinks && Describes(g, t, dest, l);
    }

    /** A node that was reached has been popped. */
    lemma FiniteNodeIsMet(g: Graph<Node, Link>, t: Node, met: set<Node>, n: Node)
      requires DescribesAll(g, t, met) && Realised(g, Distances(), OutPaths()) && n in nodes && n.dist.Fin?
      ensures n in met
      ensures n != t ==>
        var l := OutPaths()[n]; l.Some? && Attains(g, Distances(), n, l.value) && g.dst[l.value].dist.Fin?
    {
      if n != t {
        var l := OutPaths()[n].value;
        assert Attains(g, Distances(), n, l) && IsRouting(g, l);
        assert Distances()[g.dst[l]].Fin?;
      }
    }

    /** The weighted search for a target that is given. */
    method RunWeighted(ghost g: Graph<Node, Link>, t: Node, ghost met: set<Node>)
      requires DescribesAll(g, t, met)
      modifies this`target, nodes`dist, nodes`outPath
      ensures target == t && ShortestTree(g, Distances(), OutPaths()) && DescribesAll(g, t, met)
    {
      target := t;
      ResetLabels(t);
      ghost var s := SearchWeighted(g, t, met);
    }

    /**
     Leaves in every node its distance to t in the weighted graph, and in outPath the first link
     of a walk of that cost.  Without a target it fails and changes nothing.
     */
    method CalculateWeightedSingleShortestPathsTo(t: Node?) returns (ok: bool)
      requires Valid()
      requires t != null ==> t in nodes && ProperWeights(t)
      modifies this`target, nodes`dist, nodes`outPath
      ensures ok <==> t != null
      ensures !ok ==> target == old(target) && Distances() == old(Distances()) && OutPaths() == old(OutPaths())
      ensures ok ==> target == t && ShortestTree(old(WeightedGraph(t)), Distances(), OutPaths()) && Settled(t)
    {
      if t == null {
        return false;
      }
      WeightedGraphDescribesAll(t);
      ghost var g, met := WeightedGraph(t), Routed(t);
      RunWeighted(g, t, met);
      ShortestTreeIsSettled(g, t, met);
      return true;
    }

    // ----- Breadth-first search -----

    /** g describes link, which ends at dest, as the breadth-first search sees it. */
    ghost predicate DescribesHop(g: Graph<Node, Link>, dest: Node, link: Link)
      reads this`nodes, nodes`enabled, link`srcNode, link`destNode, link`enabled
    {
      && WellFormed(g) && g.nodes == Entries(nodes) && dest in nodes
      && link.srcNode in nodes && link.destNode == dest
      && (link in g.links <==> link.enabled && link.srcNode.enabled)
      && (link in g.links ==> g.src[link] == link.srcNode && g.dst[link] == dest)
    }

    /** g describes every link into a node of met, and those are the nodes that the search can pop. */
    ghost predicate DescribesAllHops(g: Graph<Node, Link>, t: Node, met: set<Node>)
      reads this`nodes, this`wires, nodes`enabled, nodes`inLinks,
            wires.ends.Keys`srcNode, wires.ends.Keys`destNode, wires.ends.Keys`enabled
    {
      && WellFormed(g) && UnitWeights(g) && g.nodes == Entries(nodes) && g.target == t && t in met && met <= g.nodes
      && (forall l :: l in g.links ==> g.src[l] in met && l in g.dst[l].inLinks)
      && (forall n, l :: n in met && n in nodes && l in n.inLinks ==> l in wires.ends && DescribesHop(g, n, l))
    }

    lemma HopGraphPictures(t: Node)
      requires t in nodes
      ensures Pictures(HopGraph(t), t, Upstream(t)) && UnitWeights(HopGraph(t))
    {
      assert forall l :: l in LinksInto(Upstream(t)) ==> l.srcNode in nodes && l.destNode in nodes;
    }

    lemma PictureDescribesHops(g: Graph<Node, Link>, t: Node)
      requires Valid() && t in nodes && Pictures(g, t, Upstream(t)) && UnitWeights(g)
      ensures DescribesAllHops(g, t, Upstream(t))
    {
      LeadingToIsClosed(UsableLinks(), t);
      PicturedLinks(g, t, Upstream(t));
      forall n, l | n in Upstream(t) && n in nodes && l in n.inLinks
        ensures l in wires.ends && DescribesHop(g, n, l)
      {
        ListedLinkIsPictured(g, t, Upstream(t), n, l);
      }
    }

    lemma HopGraphDescribesAll(t: Node)
      requires Valid() && t in nodes
      ensures DescribesAllHops(HopGraph(t), t, Upstream(t))
    {
      HopGraphPictures(t);
      PictureDescribesHops(HopGraph(t), t);
    }

    method LookUnweighted(ghost g: Graph<Node, Link>, v: Node, link: Link, q: seq<Node>, ghost s: State<Node, Link>)
      returns (q': seq<Node>)
      requires DescribesHop(g, v, link) && Shows(s) && q == s.q
      modifies nodes`dist, nodes`outPath
      ensures Shows(HopLook(g, s, link)) && q' == HopLook(g, s, link).q
    {
      q' := q;
      if !link.enabled {
        return;
      }
      var w: Node := link.srcNode;
      if !w.enabled {
        return;
      }
      if w.dist == Inf {
        w.dist := v.dist.Plus(Fin(1.0));
        w.outPath := link;
        q' := q + [w];
      }
    }

    /** Looks at the i-th link into v. */
    method ScanOneUnweighted(ghost g: Graph<Node, Link>, v: Node, i: nat, q: seq<Node>, ghost s: State<Node, Link>)
      returns (q': seq<Node>, ghost s': State<Node, Link>)
      requires i < |v.inLinks| && DescribesHop(g, v, v.inLinks[i])
      requires Scanning(g, s, v, Entries(v.inLinks[..i])) && UnitWeights(g) && OneHopAhead(s, v)
      requires g.nodes == Entries(nodes) && Shows(s) && q == s.q
      modifies nodes`dist, nodes`outPath
      ensures Scanning(g, s', v, Entries(v.inLinks[..i + 1])) && OneHopAhead(s', v)
      ensures Shows(s') && q' == s'.q && s'.done == s.done
    {
      var link := v.inLinks[i];
      q' := LookUnweighted(g, v, link, q, s);
      s' := HopLook(g, s, link);
      HopLookKeepsScanning(g, s, v, Entries(v.inLinks[..i]), link);
      EntriesNext(v.inLinks, i);
    }

    /** The inner loop: all links into v, the node popped last. */
    method ScanUnweighted(ghost g: Graph<Node, Link>, v: Node, q: seq<Node>, ghost s: State<Node, Link>)
      returns (q': seq<Node>, ghost s': State<Node, Link>)
      requires forall l :: l in v.inLinks ==> DescribesHop(g, v, l)
      requires Scanning(g, s, v, {}) && UnitWeights(g) && OneHopAhead(s, v)
      requires g.nodes == Entries(nodes) && Shows(s) && q == s.q
      modifies nodes`dist, nodes`outPath
      ensures Scanning(g, s', v, Entries(v.inLinks)) && OneHopAhead(s', v)
      ensures Shows(s') && q' == s'.q && s'.done == s.done
    {
      q', s' := q, s;
      assert Entries(v.inLinks[..0]) == {};
      for i := 0 to |v.inLinks|
        invariant Scanning(g, s', v, Entries(v.inLinks[..i])) && OneHopAhead(s', v)
        invariant Shows(s') && q' == s'.q && s'.done == s.done
      {
        assert DescribesHop(g, v, v.inLinks[i]);
        q', s' := ScanOneUnweighted(g, v, i, q', s');
      }
      assert v.inLinks[..|v.inLinks|] == v.inLinks;
    }

    method PopUnweighted(ghost g: Graph<Node, Link>, t: Node, ghost met: set<Node>,
                         q: seq<Node>, ghost s: State<Node, Link>)
      returns (q': seq<Node>, ghost s': State<Node, Link>)
      requires DescribesAllHops(g, t, met) && Between(g, s) && Narrow(s) && Shows(s) && q == s.q != []
      modifies nodes`dist, nodes`outPath
      ensures DescribesAllHops(g, t, met)
      ensures Between(g, s') && Narrow(s') && Shows(s') && q' == s'.q
      ensures s'.done == s.done + {q[0]} && g.nodes - s'.done < g.nodes - s.done
    {
      ghost var described := DescribesAllHops(g, t, met);
      q', s' := TurnUnweighted(g, t, met, q, s);
      assert DescribesAllHops(g, t, met) == described;
    }

    method TurnUnweighted(ghost g: Graph<Node, Link>, t: Node, ghost met: set<Node>,
                          q: seq<Node>, ghost s: State<Node, Link>)
      returns (q': seq<Node>, ghost s': State<Node, Link>)
      requires DescribesAllHops(g, t, met) && Between(g, s) && Narrow(s) && Shows(s) && q == s.q != []
      modifies nodes`dist, nodes`outPath
      ensures Between(g, s') && Narrow(s') && Shows(s') && q' == s'.q
      ensures s'.done == s.done + {q[0]} && g.nodes - s'.done < g.nodes - s.done
    {
      assert q[0] in g.nodes - s.done;
      PopStartsScan(g, s);
      PopIsOneHopAhead(g, s);
      if q[0] != t {
        PoppedIsReached(g, s);
      }
      q', s' := ScanUnweighted(g, q[0], q[1..], Pop(s));
      ScanEnds(g, s', q[0], Entries(q[0].inLinks));
      ScannedIsNarrow(g, s', q[0], Entries(q[0].inLinks));
    }

    method SearchUnweighted(ghost g: Graph<Node, Link>, t: Node, ghost met: set<Node>)
      returns (ghost s: State<Node, Link>)
      requires DescribesAllHops(g, t, met) && Shows(Start(g))
      modifies nodes`dist, nodes`outPath
      ensures ShortestTree(g, s.D, s.P) && Shows(s) && DescribesAllHops(g, t, met)
    {
      var q := [t];
      s := Start(g);
      StartIsBetween(g);
      while q != []
        invariant DescribesAllHops(g, t, met)
        invariant Between(g, s) && Narrow(s) && q == s.q && Shows(s)
        decreases g.nodes - s.done
      {
        q, s := PopUnweighted(g, t, met, q, s);
      }
      EmptyQueueIsOptimal(g, s);
    }

    /** The same for hops: no usable link shortens a way, and every way is one hop longer than that of its out-path. */
    ghost predicate SettledByHops(t: Node)
      reads this`nodes, this`wires, t, nodes, wires.ends.Keys
    {
      && t.dist == ZERO
      && (forall l :: l in wires.ends && l.srcNode in nodes && l.destNode in nodes && IsUsable(l) ==>
            l.srcNode.dist.AtMost(l.destNode.dist.Plus(Fin(1.0))))
      && (forall n :: n in nodes && n != t && n.dist.Fin? ==>
            && n.outPath != null && n.outPath in wires.ends && n.outPath.srcNode == n && n.outPath.destNode in nodes
            && IsUsable(n.outPath) && n.dist == n.outPath.destNode.dist.Plus(Fin(1.0)))
    }

    lemma ShortestTreeIsSettledByHops(g: Graph<Node, Link>, t: Node, met: set<Node>)
      requires Valid() && DescribesAllHops(g, t, met) && ShortestTree(g, Distances(), OutPaths())
      ensures SettledByHops(t)
    {
      forall n | n in nodes && n != t && n.dist.Fin?
        ensures n.outPath != null && n.outPath in wires.ends && n.outPath.srcNode == n && n.outPath.destNode in nodes
        ensures IsUsable(n.outPath) && n.dist == n.outPath.destNode.dist.Plus(Fin(1.0))
      {
        HopOutPathIsUsable(g, t, met, n);
      }
      forall l | l in wires.ends && l.srcNode in nodes && l.destNode in nodes && IsUsable(l)
        ensures l.srcNode.dist.AtMost(l.destNode.dist.Plus(Fin(1.0)))
      {
        LinkableIsListed(l);
        var dest: Node := l.destNode;
        if dest.dist.Fin? {
          ReachedNodeIsMet(g, t, met, dest);
          assert dest in met && DescribesHop(g, dest, l);
        }
      }
    }

    lemma HopOutPathIsUsable(g: Graph<Node, Link>, t: Node, met: set<Node>, n: Node)
      requires Valid() && DescribesAllHops(g, t, met) && ShortestTree(g, Distances(), OutPaths())
      requires n in nodes && n != t && n.dist.Fin?
      ensures n.outPath != null && n.outPath in wires.ends && n.outPath.srcNode == n && n.outPath.destNode in nodes
      ensures IsUsable(n.outPath) && n.dist == n.outPath.destNode.dist.Plus(Fin(1.0))
    {
      var l := OutPaths()[n].value;
      ReachedNodeIsMet(g, t, met, n);
      var dest := g.dst[l];
      ReachedNodeIsMet(g, t, met, dest);
      assert dest in met && l in dest.inLinks && DescribesHop(g, dest, l);
    }

    lemma ReachedNodeIsMet(g: Graph<Node, Link>, t: Node, met: set<Node>, n: Node)
      requires DescribesAllHops(g, t, met) && Realised(g, Distances(), OutPaths()) && n in nodes && n.dist.Fin?
      ensures n in met
      ensures n != t ==>
        var l := OutPaths()[n]; l.Some? && Attains(g, Distances(), n, l.value) && g.dst[l.value].dist.Fin?
    {
      if n != t {
        var l := OutPaths()[n].value;
        assert Attains(g, Distances(), n, l);
        assert Distances()[g.dst[l]].Fin?;
      }
    }

    method RunUnweighted(ghost g: Graph<Node, Link>, t: Node, ghost met: set<Node>)
      requires DescribesAllHops(g, t, met)
      modifies this`target, nodes`dist, nodes`outPath
      ensures target == t && ShortestTree(g, Distances(), OutPaths()) && DescribesAllHops(g, t, met)
    {
      target := t;
      ResetLabels(t);
      ghost var s := SearchUnweighted(g, t, met);
    }

    /** Leaves in every node its number of hops to t, and in outPath the first link of such a walk. */
    method CalculateUnweightedSingleShortestPathsTo(t: Node?) returns (ok: bool)
      requires Valid() && (t != null ==> t in nodes)
      modifies this`target, nodes`dist, nodes`outPath
      ensures ok <==> t != null
      ensures !ok ==> target == old(target) && Distances() == old(Distances()) && OutPaths() == old(OutPaths())
      ensures ok ==> target == t && ShortestTree(old(HopGraph(t)), Distances(), OutPaths()) && SettledByHops(t)
    {
      if t == null {
        return false;
      }
      HopGraphDescribesAll(t);
      ghost var g, met := HopGraph(t), Upstream(t);
      RunUnweighted(g, t, met);
      ShortestTreeIsSettledByHops(g, t, met);
      return true;
    }

    lemma UnitWeightsRouteAll(t: Node)
      requires Realises() && t in nodes
      requires forall n :: n in Upstream(t) ==> n.weight == ZERO
      requires forall l :: l in LinksInto(Upstream(t)) ==> l.weight == Fin(1.0)
      ensures Routed(t) == Upstream(t)
    {
      forall n | n in Upstream(t)
        ensures n in Routed(t)
      {
        var p :| Chain(wires.ends, UsableLinks(), n, p, t);
        FiniteChainIsRouted(t, n, p);
      }
      forall n | n in Routed(t)
        ensures n in Upstream(t)
      {
        var p :| Chain(wires.ends, RoutingLinks(t), n, p, t);
        ChainOfUsableLinks(RoutingLinks(t), n, p, t);
        RoutedChain(RoutingLinks(t), UsableLinks(), n, p, t);
      }
    }

    lemma {:induction false} FiniteChainIsRouted(t: Node, n: Node, p: seq<Link>)
      requires Realises() && t in nodes && n in nodes && Chain(wires.ends, UsableLinks(), n, p, t)
      requires forall n :: n in Upstream(t) ==> n.weight == ZERO
      requires forall l :: l in LinksInto(Upstream(t)) ==> l.weight == Fin(1.0)
      ensures Chain(wires.ends, RoutingLinks(t), n, p, t)
      decreases |p|
    {
      if p == [] {
      } else {
        var next: Node := p[0].destNode;
        assert next in Upstream(t);
        assert p[0] in LinksInto(Upstream(t));
        FiniteChainIsRouted(t, next, p[1..]);
      }
    }

    /** With link weights 1 and node weights 0 both searches leave the same distances. */
    lemma SearchesAgreeOnUnitWeights(t: Node, D1: map<Node, Dist>, P1: map<Node, Option<Link>>,
                                     D2: map<Node, Dist>, P2: map<Node, Option<Link>>)
      requires Realises() && t in nodes
      requires forall n :: n in Upstream(t) ==> n.weight == ZERO
      requires forall l :: l in LinksInto(Upstream(t)) ==> l.weight == Fin(1.0)
      requires ShortestTree(WeightedGraph(t), D1, P1) && ShortestTree(HopGraph(t), D2, P2)
      ensures D1 == D2
    {
      UnitWeightsRouteAll(t);
      assert WeightedGraph(t) == HopGraph(t);
      DistancesAreUnique(HopGraph(t), D1, P1, D2, P2);
    }
  }
}
