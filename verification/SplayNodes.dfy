/** The nodes of the splay tree. Records are opaque addresses, 0 standing for NULL. */
module SplayNodes {

  class Node {
    const key: int
    const record: nat
    var left: Node?
    var right: Node?
    var parent: Node?

    constructor (key: int, record: nat, parent: Node?)
      ensures this.key == key && this.record == record && this.parent == parent && left == null && right == null
    {
      this.key := key;
      this.record := record;
      this.parent := parent;
      left, right := null, null;
    }
  }
}
