/** The "used by" graph that a container builds, and what it means for the walks. */
module ContainerGraph {
  import opened Layering
  import opened Signatures
  import opened Containers
  import opened UsedByWalks

  /** `g` lists, for every bound service, the services using it, in some order. */
  ghost predicate Describes(g: Graph, c: Container)
    reads c, c.repr
  {
    && g.users.Keys == c.bound.Keys
    && forall y :: y in c.bound ==> c.bound[y] in c.repr && SetOf(g.users[y]) == c.bound[y].usedBy.Keys
  }

  function Index(order: seq<string>, x: string): (i: nat)
    requires x in order
    ensures i < |order| && order[i] == x
  {
    if order[0] == x then 0 else 1 + Index(order[1..], x)
  }

  lemma UserComesLater(c: Container, x: string, y: string)
    requires c.Valid() && c.Uses(x, y) && y in c.bound
    ensures x in c.order && y in c.order && Index(c.order, y) < Index(c.order, x)
  {
    assert x in SetOf(c.order) && y in SetOf(c.order);
    var i := Index(c.order, x);
    assert y in c.order[..i];
    var j :| 0 <= j < i && c.order[j] == y;
  }

  /** In a valid container, built and then extended, "used by" has no cycle. */
  lemma UsedByIsAcyclic(c: Container, g: Graph)
    requires c.Valid() && Describes(g, c)
    ensures !Cyclic(g.users.Keys, LinkMap(g))
  {
    assert forall x :: x in c.bound ==> x in SetOf(c.order);
    var layer := map x | x in c.bound.Keys :: |c.order| - Index(c.order, x);
    forall y, x | y in g.users.Keys && x in g.users.Keys && x in Of(LinkMap(g), y)
      ensures layer[x] < layer[y]
    {
      assert x in SetOf(g.users[y]);
      assert c.InverseAt(y);
      UserComesLater(c, x, y);
    }
    LayeringIsAcyclic(layer, g.users.Keys, LinkMap(g));
  }

  /** Hence the status walk comes to an end from every service of the container. */
  lemma StatusWalkEnds(c: Container, g: Graph, root: string)
    requires c.Valid() && Describes(g, c) && WellFormed(g) && root in c.bound
    ensures exists fuel: nat :: AfterNode(g, root, {}, fuel).ending == Finished
  {
    UsedByIsAcyclic(c, g);
    if Cyclic(Region(g, root), LinkMap(g)) {
      CycleInSubset(Region(g, root), g.users.Keys, LinkMap(g));
    }
    EndsIffAcyclic(g, root);
  }
}
