/** The canonical intermediate representation of one exercised flow. */
module Ir {

  datatype Kind = Server | Client | Internal | Producer | Consumer

  /**
   * A span tree over any per-node content `H`. The repository's canonical span is the instance
   * at `Header`; the tree passes are stated for every `H`, so that node identity, where a
   * theorem needs it, can be carried in the content itself.
   */
  datatype Tree<H> = Tree(head: H, children: seq<Group<H>>)

  datatype Group<H> = Group(concurrent: bool, unordered: bool, multiplicity: string, members: seq<Tree<H>>)

  /** Everything a canonical span says about its own operation. */
  datatype Header = Header(
    op: string,
    kind: Kind,
    peer: string,
    service: string,
    tier: int,
    status: string,
    errorType: string,
    async: bool,
    attrs: map<string, string>
  )

  type CanonicalSpan = Tree<Header>
  type ChildGroup = Group<Header>

  const LOOP := "1..*"

  /** The attribute that names the function a span ran in. */
  const FQN_TAG := "flowmap.fqn"

  /** What the operation of a database span starts with. */
  const DB_PREFIX := "DB "

  /** What a group claims about the order of its members; `Concurrent` is read first. */
  datatype Ordering = Sequential | Concurrent | Unordered

  function OrderingOf<H>(g: Group<H>): Ordering {
    if g.concurrent then Concurrent else if g.unordered then Unordered else Sequential
  }
}
