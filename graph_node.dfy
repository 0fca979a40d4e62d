/**
 * `Node` (in `bin/algorithms/DfsClass.java`): a graph node identified by its label, with
 * Java's `equals`, `hashCode` and `toString` over that label.
 */
module GraphNodes {
  import opened JavaInt

  /** A node; its `label` is `name` here, `label` being a Dafny keyword. */
  datatype Node = Node(name: string)

  /** What `equals(Object)` may receive: null, a `Node`, or an object of another class. */
  datatype Object = Null | NodeObject(node: Node) | OtherObject

  /** `getLabel`. */
  function GetLabel(n: Node): (s: string)
    ensures Node(s) == n
  {
    n.name
  }

  /**
   * `equals(obj)`: the same object, or another `Node` with an equal label. Anything that is not
   * a `Node`, null included, is unequal.
   */
  function Equals(n: Node, obj: Object): (r: bool)
    ensures !obj.NodeObject? ==> !r
    ensures obj.NodeObject? ==> (r <==> n == obj.node)
  {
    match obj
    case NodeObject(other) => n.name == other.name
    case _ => false
  }

  /** `equals` is reflexive, symmetric and transitive on nodes. */
  lemma EqualsEquivalence(a: Node, b: Node, c: Node)
    ensures Equals(a, NodeObject(a))
    ensures Equals(a, NodeObject(b)) ==> Equals(b, NodeObject(a))
    ensures Equals(a, NodeObject(b)) && Equals(b, NodeObject(c)) ==> Equals(a, NodeObject(c))
  {
  }

  /** A 32-bit two's complement `int` from an unbounded integer, as Java's arithmetic wraps. */
  function Wrap(x: int): (r: int)
    ensures IntMin <= r <= IntMax
    ensures (r - x) % 0x1_0000_0000 == 0
  {
    var low := x % 0x1_0000_0000;
    if low <= IntMax then low else low - 0x1_0000_0000
  }

  /**
   * `String.hashCode`: `31 * h + c` over the characters, wrapping at 32 bits, from `h = 0`.
   */
  function StringHash(s: string): (h: int)
    ensures IntMin <= h <= IntMax
  {
    if s == [] then 0 else Wrap(31 * StringHash(s[..|s| - 1]) + s[|s| - 1] as int)
  }

  /** `hashCode`: the label's hash. */
  function HashCode(n: Node): (h: int)
    ensures IntMin <= h <= IntMax
  {
    StringHash(n.name)
  }

  /** Equal nodes hash equal, as `hashCode`'s contract with `equals` requires. */
  lemma HashAgreesWithEquals(a: Node, b: Node)
    requires Equals(a, NodeObject(b))
    ensures HashCode(a) == HashCode(b)
  {
  }

  /** `toString`: the label itself. */
  function ToString(n: Node): (s: string)
    ensures s == GetLabel(n)
  {
    n.name
  }
}
