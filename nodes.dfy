/** Nodes: a position in the input graph packed into 64 bits as a node id, an
    optional orientation bit (reverse complement), and an offset within the node.
    The width of the offset and the presence of the orientation bit form a
    `Layout`; the header's `Node` (8-bit offset, no orientation bit) is
    `HEADER_LAYOUT`. */
module Nodes {
  import opened Bits
  import opened Decimal

  datatype Layout = Layout(offsetBits: nat, orientation: bool)

  /** `OFFSET_BITS = 8`, `OFFSET_MASK = 0xFF`, no orientation bit. */
  const HEADER_LAYOUT := Layout(8, false)

  /** Where the id starts: above the offset and the orientation bit, if any. */
  function IdShift(l: Layout): nat {
    l.offsetBits + (if l.orientation then 1 else 0)
  }

  predicate ValidLayout(l: Layout) {
    IdShift(l) < 64
  }

  function OffsetMask(l: Layout): nat {
    Pow2(l.offsetBits) - 1
  }

  /** The orientation bit, `1 << OFFSET_BITS`, when it is set and the layout has one. */
  function RcBit(l: Layout, rc: bool): nat {
    if l.orientation && rc then Shl(1, l.offsetBits) else 0
  }

  /** `(id << shift) | rc-bit | offset` in 64 bits. */
  function Encode(l: Layout, id: u64, offset: u64, rc: bool): u64
    requires ValidLayout(l)
  {
    ShlBound(1, 1, l.offsetBits);
    Pow2Below64(l.offsetBits);
    assert Pow2(1 + l.offsetBits) == 2 * Pow2(l.offsetBits);
    var high := Shl(id, IdShift(l)) % TWO_64;
    OrBound64(high, RcBit(l, rc));
    var withRc := Or(high, RcBit(l, rc));
    OrBound64(withRc, offset);
    Or(withRc, offset)
  }

  /** `node >> shift`. */
  function Id(l: Layout, node: u64): (id: u64)
    ensures id <= node
  {
    ShrLe(node, IdShift(l));
    Shr(node, IdShift(l))
  }

  /** `node & OFFSET_MASK`. */
  function Offset(l: Layout, node: u64): (offset: u64)
    ensures offset <= node && offset < Pow2(l.offsetBits)
  {
    LowLe(node, l.offsetBits);
    LowBound(node, l.offsetBits);
    Low(node, l.offsetBits)
  }

  /** `node & (1 << OFFSET_BITS)`: the orientation bit is set. */
  predicate RC(l: Layout, node: u64) {
    l.orientation && Bit(node, l.offsetBits)
  }

  // ---------------------------------------------------------------------------
  // The packed fields

  /** The bits above the offset: the id, followed by the orientation bit. */
  function Above(l: Layout, id: nat, rc: bool): nat {
    if l.orientation then 2 * id + (if rc then 1 else 0) else id
  }

  /** An id that fits above the offset and orientation bit is not truncated, and
      the packed value is the id and orientation bit above the offset. */
  lemma EncodeValue(l: Layout, id: u64, offset: u64, rc: bool)
    requires ValidLayout(l) && offset <= OffsetMask(l)
    requires id < Pow2(64 - IdShift(l))
    ensures Encode(l, id, offset, rc) == Shl(Above(l, id, rc), l.offsetBits) + offset
  {
    var w := l.offsetBits;
    EncodeHigh(l, id, rc);
    OrShlLow(Above(l, id, rc), offset, w);
  }

  /** The id shifted into place, with the orientation bit: the bits above the offset. */
  lemma EncodeHigh(l: Layout, id: u64, rc: bool)
    requires ValidLayout(l)
    requires id < Pow2(64 - IdShift(l))
    ensures Or(Shl(id, IdShift(l)) % TWO_64, RcBit(l, rc)) == Shl(Above(l, id, rc), l.offsetBits)
  {
    var w, s := l.offsetBits, IdShift(l);
    var high := Shl(id, s);
    ShlBound(id, 64 - s, s);
    Pow2Values();
    DivModUnique(high, TWO_64, 0, high);
    if l.orientation {
      ShlSucc(id, w);
      if rc {
        OrShl(2 * id, 1, w);
        OrStep(2 * id, 1);
        OrZero(id);
      } else {
        OrZero(high);
      }
    } else {
      OrZero(high);
    }
  }

  /** Reading the fields of `(x << offsetBits) + offset`. */
  lemma FieldsOf(l: Layout, x: nat, offset: nat, node: u64)
    requires ValidLayout(l) && offset < Pow2(l.offsetBits)
    requires node == Shl(x, l.offsetBits) + offset
    ensures Offset(l, node) == offset
    ensures Id(l, node) == (if l.orientation then x / 2 else x)
    ensures RC(l, node) == (l.orientation && x % 2 == 1)
  {
    ShrShlPlus(x, offset, l.offsetBits);
    if l.orientation {
      ShrShr(node, l.offsetBits, 1);
    }
  }

  /** `id(encode(id, offset, rc)) == id`, `offset(...) == offset` and the
      orientation bit reads back, for an offset within the mask and an id that
      fits. */
  lemma EncodeFields(l: Layout, id: u64, offset: u64, rc: bool)
    requires ValidLayout(l) && offset <= OffsetMask(l)
    requires id < Pow2(64 - IdShift(l))
    ensures Id(l, Encode(l, id, offset, rc)) == id
    ensures Offset(l, Encode(l, id, offset, rc)) == offset
    ensures RC(l, Encode(l, id, offset, rc)) == (l.orientation && rc)
  {
    EncodeValue(l, id, offset, rc);
    FieldsOf(l, Above(l, id, rc), offset, Encode(l, id, offset, rc));
  }

  /** The id of any 64-bit node fits above the offset and orientation bit. */
  lemma IdFits(l: Layout, node: u64)
    requires ValidLayout(l)
    ensures Id(l, node) < Pow2(64 - IdShift(l))
  {
    Pow2Values();
    ShrBound(node, 64, IdShift(l));
  }

  /** Every 64-bit value is a well-formed node: re-encoding its fields gives it back. */
  lemma EncodeOfFields(l: Layout, node: u64)
    requires ValidLayout(l)
    ensures Offset(l, node) <= OffsetMask(l) && Id(l, node) < TWO_64
    ensures Encode(l, Id(l, node), Offset(l, node), RC(l, node)) == node
  {
    var w := l.offsetBits;
    var x := Shr(node, w);
    ShlShrLow(node, w);
    LowBound(node, w);
    IdFits(l, node);
    Pow2Mono(64 - IdShift(l), 64);
    Pow2Values();
    FieldsOf(l, x, Low(node, w), node);
    assert Above(l, Id(l, node), RC(l, node)) == x;
    EncodeValue(l, Id(l, node), Offset(l, node), RC(l, node));
  }

  // ---------------------------------------------------------------------------
  // Text

  /** `Node::decode`: the id, `:`, `-` for the reverse complement, the offset. */
  function Decode(l: Layout, node: u64): string {
    ToDecimal(Id(l, node)) + ":" + (if RC(l, node) then "-" else "") + ToDecimal(Offset(l, node))
  }

  datatype Rejection = InvalidToken | OffsetTooLarge

  /** What `Node::encode(token)` does: return a node, print a diagnostic and return
      the sentinel 0 (`Rejected`), or let `std::stoul` throw. */
  datatype Encoded = Node(node: u64) | Rejected(reason: Rejection) | Thrown {
    /** The value the caller receives when nothing is thrown. */
    function Value(): u64
      requires !Thrown?
    {
      if Node? then node else 0
    }
  }

  /** `Node::encode(token)`: parse the id, then the rest of the token. */
  function EncodeToken(l: Layout, token: string): Encoded
    requires ValidLayout(l)
  {
    var id := Stoul(token);
    if id.Throws? then Thrown else AfterId(l, id.value, token[id.consumed..])
  }

  /** The rest of `Node::encode(token)` once the id is parsed; `rest` starts where
      `stoul` stopped. The character there is skipped unread; a `-` after it marks
      the reverse complement (dropped in a layout without an orientation bit). */
  function AfterId(l: Layout, id: u64, rest: string): Encoded
    requires ValidLayout(l)
  {
    if 1 >= |rest| then Rejected(InvalidToken)
    else
      var rc := rest[1] == '-';
      var offset := Stoul(rest[if rc then 2 else 1..]);
      if offset.Throws? then Thrown
      else if offset.value > OffsetMask(l) then Rejected(OffsetTooLarge)
      else Node(Encode(l, id, offset.value, rc))
  }

  /** A token that starts with a printed id continues after it. */
  lemma EncodeTokenOfId(l: Layout, id: u64, rest: string)
    requires ValidLayout(l) && (rest == [] || !IsDigit(rest[0]))
    ensures EncodeToken(l, ToDecimal(id) + rest) == AfterId(l, id, rest)
  {
    StoulOfDecimal(id, rest);
    assert (ToDecimal(id) + rest)[|ToDecimal(id)|..] == rest;
  }

  /** Parsing the printed form of any node gives the node back. */
  lemma EncodeTokenOfDecode(l: Layout, node: u64)
    requires ValidLayout(l)
    ensures EncodeToken(l, Decode(l, node)) == Node(node)
  {
    var id, offset, rc := Id(l, node), Offset(l, node), RC(l, node);
    EncodeOfFields(l, node);
    var offText := ToDecimal(offset);
    var rest := ":" + (if rc then "-" else "") + offText;
    assert Decode(l, node) == ToDecimal(id) + rest;
    EncodeTokenOfId(l, id, rest);
    assert (rest[1] == '-') == rc;
    assert rest[if rc then 2 else 1..] == offText + [];
    StoulOfDecimal(offset, []);
  }

  /** Printing an encoded node gives the canonical `id:offset` or `id:-offset`. */
  lemma DecodeOfEncode(l: Layout, id: u64, offset: u64, rc: bool)
    requires ValidLayout(l) && offset <= OffsetMask(l)
    requires id < Pow2(64 - IdShift(l))
    ensures Decode(l, Encode(l, id, offset, rc))
      == ToDecimal(id) + ":" + (if l.orientation && rc then "-" else "") + ToDecimal(offset)
  {
    EncodeFields(l, id, offset, rc);
  }

  /** The character between the id and the offset is not checked: any non-digit
      there parses the same as `:`. */
  lemma SeparatorUnchecked(l: Layout, id: u64, separator: char, rest: string)
    requires ValidLayout(l) && !IsDigit(separator)
    ensures EncodeToken(l, ToDecimal(id) + [separator] + rest) == EncodeToken(l, ToDecimal(id) + [':'] + rest)
  {
    assert ToDecimal(id) + [separator] + rest == ToDecimal(id) + ([separator] + rest);
    assert ToDecimal(id) + [':'] + rest == ToDecimal(id) + ([':'] + rest);
    EncodeTokenOfId(l, id, [separator] + rest);
    EncodeTokenOfId(l, id, [':'] + rest);
    AfterIdSkipsSeparator(l, id, separator, rest);
    AfterIdSkipsSeparator(l, id, ':', rest);
  }

  /** After the id, only what follows the separator matters. */
  lemma AfterIdSkipsSeparator(l: Layout, id: u64, separator: char, rest: string)
    requires ValidLayout(l)
    ensures AfterId(l, id, [separator] + rest)
      == if rest == [] then Rejected(InvalidToken)
         else AfterId(l, id, [rest[0]] + rest)
  {
    if rest != [] {
      var r1, r2 := [separator] + rest, [rest[0]] + rest;
      assert r1[1] == r2[1];
      assert r1[1..] == r2[1..] && r1[2..] == r2[2..];
    }
  }

  /** Nothing after the character that follows the id: the sentinel. */
  lemma NothingAfterSeparator(l: Layout, id: u64, separator: char)
    requires ValidLayout(l) && !IsDigit(separator)
    ensures EncodeToken(l, ToDecimal(id) + [separator]) == Rejected(InvalidToken)
    ensures EncodeToken(l, ToDecimal(id)) == Rejected(InvalidToken)
  {
    EncodeTokenOfId(l, id, [separator]);
    EncodeTokenOfId(l, id, []);
    assert ToDecimal(id) + [] == ToDecimal(id);
  }

  /** An offset above the mask, on either strand: the sentinel, not a wrapped
      offset. */
  lemma OffsetAboveMask(l: Layout, id: u64, rc: bool, offset: u64)
    requires ValidLayout(l) && offset > OffsetMask(l)
    ensures EncodeToken(l, ToDecimal(id) + ":" + (if rc then "-" else "") + ToDecimal(offset))
      == Rejected(OffsetTooLarge)
  {
    var rest := ":" + (if rc then "-" else "") + ToDecimal(offset);
    assert ToDecimal(id) + ":" + (if rc then "-" else "") + ToDecimal(offset) == ToDecimal(id) + rest;
    EncodeTokenOfId(l, id, rest);
    assert (rest[1] == '-') == rc;
    assert rest[if rc then 2 else 1..] == ToDecimal(offset) + [];
    StoulOfDecimal(offset, []);
  }

  /** The sentinel the source returns on a rejected token is also the node that
      `"0:0"` encodes, so a caller cannot tell the two apart by value. */
  lemma SentinelIsNodeZero(l: Layout)
    requires ValidLayout(l)
    ensures EncodeToken(l, "0:0") == Node(0)
    ensures Rejected(InvalidToken).Value() == EncodeToken(l, "0:0").Value()
  {
    assert ToDecimal(0) == "0";
    assert Decode(l, 0) == "0:0" by {
      ShrZero(0, IdShift(l));
      ShlShrLow(0, l.offsetBits);
    }
    EncodeTokenOfDecode(l, 0);
  }
}
