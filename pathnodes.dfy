/** PathNodes: the node type of prefix doubling. A path is the semiopen range
    `[from, to)` of original graph nodes; its label is a fixed array of ranks of
    the original k-mers; `fields` keeps the predecessor bitmap in its lowest byte
    and the order of the path in the next byte. */
module PathNodes {
  import opened Bits

  const LABEL_LENGTH: nat := 8

  /** `PathNode::rank_type`, a 32-bit unsigned integer. */
  const TWO_32: nat := 0x1_0000_0000
  type rank = x: nat | x < TWO_32

  class PathNode {
    var from: u64
    var to: u64
    /** `label`, a keyword here. */
    var lbl: array<rank>
    var fields: u64

    ghost predicate Valid()
      reads this
    {
      lbl.Length == LABEL_LENGTH
    }

    /** A path node with the given members. */
    constructor (from: u64, to: u64, ranks: seq<rank>, fields: u64)
      requires |ranks| == LABEL_LENGTH
      ensures Valid() && fresh(lbl)
      ensures this.from == from && this.to == to && lbl[..] == ranks && this.fields == fields
    {
      this.from := from;
      this.to := to;
      this.fields := fields;
      lbl := new rank[LABEL_LENGTH](i requires 0 <= i < LABEL_LENGTH => ranks[i]);
    }

    /** The path has a unique label and will not be extended. */
    predicate Sorted()
      reads this
    {
      from == to
    }

    /** `makeSorted`: the range collapses onto its start. */
    method MakeSorted()
      modifies this
      ensures Sorted() && from == old(from) && fields == old(fields) && lbl == old(lbl)
    {
      to := from;
    }

    /** `outdegree`: during edge generation `to` holds the number of outgoing edges. */
    function Outdegree(): (degree: u64)
      reads this
      ensures degree == to
    {
      to
    }

    /** `(fields >> 8) & 0xFF`. */
    function Order(): byte
      reads this
    {
      (fields / 256) % 256
    }

    /** `fields & 0xFF`. */
    function Predecessors(): byte
      reads this
    {
      fields % 256
    }

    /** `fields & (1 << comp)`. The shift is of a 32-bit `int`: below 31 it is
        bit `comp`; at 31 it is the sign bit, which widens to every bit from 31
        up. Larger shifts are undefined. */
    predicate HasPredecessor(comp: nat)
      reads this
      requires comp < 32
    {
      if comp < 31 then Bit(fields, comp) else Shr(fields, 31) != 0
    }

    /** Clear the order byte, then OR in the new order. */
    method SetOrder(newOrder: byte)
      modifies this
      ensures Order() == newOrder
      ensures Predecessors() == old(Predecessors())
      ensures fields / 65536 == old(fields) / 65536
      ensures from == old(from) && to == old(to) && lbl == old(lbl)
    {
      SetOrderValue(fields, newOrder);
      fields := Or((fields / 65536) * 65536 + fields % 256, newOrder * 256);
    }

    /** Clear the predecessor byte, then OR in the new bitmap. */
    method SetPredecessors(preds: byte)
      modifies this
      ensures Predecessors() == preds
      ensures Order() == old(Order())
      ensures fields / 256 == old(fields) / 256
      ensures from == old(from) && to == old(to) && lbl == old(lbl)
    {
      SetPredecessorsValue(fields, preds);
      fields := Or((fields / 256) * 256, preds);
    }

    /** OR the other node's predecessor bitmap into this one. The other node may
        be this node itself. */
    method AddPredecessors(another: PathNode)
      modifies this
      ensures Predecessors() == Or(old(Predecessors()), old(another.Predecessors()))
      ensures fields / 256 == old(fields) / 256
      ensures from == old(from) && to == old(to) && lbl == old(lbl)
    {
      var preds := another.Predecessors();
      AddPredecessorsValue(fields, preds);
      fields := Or(fields, preds);
    }
  }

  // ---------------------------------------------------------------------------
  // The fields word

  /** `fields & ~0xFF00 | order << 8` sets the order byte and keeps every other bit. */
  lemma SetOrderValue(f: u64, order: byte)
    ensures var r := Or((f / 65536) * 65536 + f % 256, order * 256);
      r < TWO_64 && (r / 256) % 256 == order && r % 256 == f % 256 && r / 65536 == f / 65536
  {
    var h, p := f / 65536, f % 256;
    assert (f / 65536) * 65536 + f % 256 == (h * 256) * 256 + p;
    OrOrderByte(h, p, order);
    ThreeFields(h, order, p);
    assert h < 0x1_0000_0000_0000;
  }

  /** ORing `order << 8` into a word whose order byte is clear. */
  lemma OrOrderByte(h: nat, p: byte, order: byte)
    ensures Or((h * 256) * 256 + p, order * 256) == (h * 256 + order) * 256 + p
  {
    OrSplit8(h * 256, p, order, 0);
    OrLow8(h, order);
    OrZero(p);
  }

  /** Reading back the bytes of `h << 16 | order << 8 | p`. */
  lemma ThreeFields(h: nat, order: byte, p: byte)
    ensures var r := (h * 256 + order) * 256 + p;
      r % 256 == p && (r / 256) % 256 == order && r / 65536 == h
  {
    var r := (h * 256 + order) * 256 + p;
    MulDiv(h * 256 + order, p, 256);
    MulDiv(h, order, 256);
    DivDiv(r, 256, 256);
  }

  /** `fields & ~0xFF | preds` sets the predecessor byte and keeps every other bit. */
  lemma SetPredecessorsValue(f: u64, preds: byte)
    ensures var r := Or((f / 256) * 256, preds);
      r < TWO_64 && r % 256 == preds && r / 256 == f / 256
  {
    OrLow8(f / 256, preds);
    MulDiv(f / 256, preds, 256);
  }

  /** `fields | preds` ORs the low bytes and keeps the bits above them. */
  lemma AddPredecessorsValue(f: u64, preds: byte)
    ensures var r := Or(f, preds);
      r < TWO_64 && r % 256 == Or(f % 256, preds) && r / 256 == f / 256
  {
    var h, p := f / 256, f % 256;
    var o := Or(p, preds);
    assert Or(f, preds) == h * 256 + o by {
      assert f == h * 256 + p;
      OrSplit8(h, p, 0, preds);
      OrZero(h);
    }
    assert o < 256 by {
      OrBoundByte(p, preds);
    }
    assert (h * 256 + o) / 256 == h && (h * 256 + o) % 256 == o by {
      MulDiv(h, o, 256);
    }
  }

  /** For a character's comp value below 8, `hasPredecessor` reads the
      predecessor bitmap. */
  lemma HasPredecessorIsBitmap(node: PathNode, comp: nat)
    requires comp < 8
    ensures node.HasPredecessor(comp) <==> Bit(node.Predecessors(), comp)
  {
    Pow2Values();
    LowBit(node.fields, 8, comp);
    ShrIsDiv(node.fields, 8);
  }

  /** After `addPredecessors`, each of the 8 predecessor bits is set exactly when
      it was set in either node. */
  lemma AddedPredecessorBits(mine: byte, theirs: byte, comp: nat)
    requires comp < 8
    ensures Bit(Or(mine, theirs), comp) <==> Bit(mine, comp) || Bit(theirs, comp)
    ensures Or(mine, theirs) < 256
  {
    OrBit(mine, theirs, comp);
    OrBoundByte(mine, theirs);
  }

  // ---------------------------------------------------------------------------
  // Comparators

  /** Lexicographic order of two equally long sequences, from position `i` on. */
  predicate LexLessFrom(s: seq<nat>, t: seq<nat>, i: nat)
    requires |s| == |t| && i <= |s|
    decreases |s| - i
  {
    if i == |s| then false
    else if s[i] != t[i] then s[i] < t[i]
    else LexLessFrom(s, t, i + 1)
  }

  predicate LexLess(s: seq<nat>, t: seq<nat>)
    requires |s| == |t|
  {
    LexLessFrom(s, t, 0)
  }

  /** `PathLabelComparator`: orders path nodes by the first `maxLength` ranks of
      their labels. */
  class PathLabelComparator {
    const maxLength: nat

    constructor (len: nat)
      ensures maxLength == len
    {
      maxLength := len;
    }

    /** The default comparator looks at the whole label. */
    constructor Default()
      ensures maxLength == LABEL_LENGTH
    {
      maxLength := LABEL_LENGTH;
    }

    /** `operator()`: the first differing rank decides; equal prefixes are not less. */
    method Compare(a: PathNode, b: PathNode) returns (less: bool)
      requires a.Valid() && b.Valid() && maxLength <= LABEL_LENGTH
      ensures less == LexLess(a.lbl[..maxLength], b.lbl[..maxLength])
    {
      ghost var s, t := a.lbl[..maxLength], b.lbl[..maxLength];
      var i := 0;
      while i < maxLength
        invariant i <= maxLength
        invariant LexLess(s, t) == LexLessFrom(s, t, i)
      {
        if a.lbl[i] != b.lbl[i] {
          return a.lbl[i] < b.lbl[i];
        }
        i := i + 1;
      }
      return false;
    }
  }

  /** `PathFromComparator`: by the start of the range only. */
  predicate FromLess(a: PathNode, b: PathNode)
    reads a, b
  {
    a.from < b.from
  }

  // ---------------------------------------------------------------------------
  // The lexicographic order

  /** Reference definition: `s` and `t` agree from `i` up to `k`, and `s` is
      smaller at `k`. */
  predicate FirstLessAt(s: seq<nat>, t: seq<nat>, i: nat, k: nat)
    requires |s| == |t|
  {
    i <= k < |s| && (forall m :: i <= m < k ==> s[m] == t[m]) && s[k] < t[k]
  }

  lemma {:induction false} LexLessFromWitness(s: seq<nat>, t: seq<nat>, i: nat) returns (k: nat)
    requires |s| == |t| && i <= |s| && LexLessFrom(s, t, i)
    ensures FirstLessAt(s, t, i, k)
    decreases |s| - i
  {
    if s[i] != t[i] {
      k := i;
    } else {
      k := LexLessFromWitness(s, t, i + 1);
    }
  }

  lemma {:induction false} LexLessFromOfWitness(s: seq<nat>, t: seq<nat>, i: nat, k: nat)
    requires |s| == |t| && i <= |s| && FirstLessAt(s, t, i, k)
    ensures LexLessFrom(s, t, i)
    decreases k - i
  {
    if k > i {
      assert s[i] == t[i];
      LexLessFromOfWitness(s, t, i + 1, k);
    }
  }

  /** The lexicographic order agrees with the reference definition: `s` is below
      `t` exactly when they share a prefix of some length `k` and `s` is smaller
      at `k`. */
  lemma LexLessExists(s: seq<nat>, t: seq<nat>)
    requires |s| == |t|
    ensures LexLess(s, t) <==> exists k :: 0 <= k < |s| && s[..k] == t[..k] && s[k] < t[k]
  {
    if LexLess(s, t) {
      var k := LexLessFromWitness(s, t, 0);
      assert s[..k] == t[..k];
    }
    if exists k :: 0 <= k < |s| && s[..k] == t[..k] && s[k] < t[k] {
      var k :| 0 <= k < |s| && s[..k] == t[..k] && s[k] < t[k];
      forall m | 0 <= m < k
        ensures s[m] == t[m]
      {
        assert s[..k][m] == t[..k][m];
      }
      LexLessFromOfWitness(s, t, 0, k);
    }
  }

  lemma {:induction false} LexLessFromIrreflexive(s: seq<nat>, i: nat)
    requires i <= |s|
    ensures !LexLessFrom(s, s, i)
    decreases |s| - i
  {
    if i < |s| {
      LexLessFromIrreflexive(s, i + 1);
    }
  }

  lemma {:induction false} LexLessFromAsymmetric(s: seq<nat>, t: seq<nat>, i: nat)
    requires |s| == |t| && i <= |s|
    ensures LexLessFrom(s, t, i) ==> !LexLessFrom(t, s, i)
    decreases |s| - i
  {
    if i < |s| && s[i] == t[i] {
      LexLessFromAsymmetric(s, t, i + 1);
    }
  }

  lemma {:induction false} LexLessFromTransitive(s: seq<nat>, t: seq<nat>, u: seq<nat>, i: nat)
    requires |s| == |t| == |u| && i <= |s|
    ensures LexLessFrom(s, t, i) && LexLessFrom(t, u, i) ==> LexLessFrom(s, u, i)
    decreases |s| - i
  {
    if i < |s| && s[i] == t[i] && t[i] == u[i] {
      LexLessFromTransitive(s, t, u, i + 1);
    }
  }

  lemma {:induction false} LexLessFromTotal(s: seq<nat>, t: seq<nat>, i: nat)
    requires |s| == |t| && i <= |s|
    requires s[i..] != t[i..]
    ensures LexLessFrom(s, t, i) || LexLessFrom(t, s, i)
    decreases |s| - i
  {
    if s[i] == t[i] {
      assert s[i..] == [s[i]] + s[i + 1..];
      assert t[i..] == [t[i]] + t[i + 1..];
      LexLessFromTotal(s, t, i + 1);
    }
  }

  /** The label order is a strict total order on equally long label prefixes:
      irreflexive, asymmetric, transitive, and two different prefixes are
      always ordered one way or the other. */
  lemma LexLessIsStrictTotalOrder(s: seq<nat>, t: seq<nat>, u: seq<nat>)
    requires |s| == |t| == |u|
    ensures !LexLess(s, s)
    ensures LexLess(s, t) ==> !LexLess(t, s)
    ensures LexLess(s, t) && LexLess(t, u) ==> LexLess(s, u)
    ensures s != t ==> LexLess(s, t) || LexLess(t, s)
  {
    LexLessFromIrreflexive(s, 0);
    LexLessFromAsymmetric(s, t, 0);
    LexLessFromTransitive(s, t, u, 0);
    if s != t {
      assert s[0..] == s && t[0..] == t;
      LexLessFromTotal(s, t, 0);
    }
  }

  /** Two path nodes whose labels agree on the compared prefix are not ordered
      either way, whatever the rest of their labels. */
  lemma EqualPrefixesUnordered(a: seq<nat>, b: seq<nat>, maxLength: nat)
    requires maxLength <= |a| && maxLength <= |b| && a[..maxLength] == b[..maxLength]
    ensures !LexLess(a[..maxLength], b[..maxLength]) && !LexLess(b[..maxLength], a[..maxLength])
  {
    LexLessFromIrreflexive(a[..maxLength], 0);
  }

  /** `PathFromComparator` is a strict weak order whose ties are equal starts. */
  lemma FromLessIsStrictWeakOrder(a: PathNode, b: PathNode, c: PathNode)
    ensures !FromLess(a, a)
    ensures FromLess(a, b) && FromLess(b, c) ==> FromLess(a, c)
    ensures (!FromLess(a, b) && !FromLess(b, a)) <==> a.from == b.from
  {
  }
}
