/** KMers: a path label of the input graph with its predecessor and successor
    bitmaps packed into a `Key`, and the range `[from, to)` of graph nodes where
    it starts. Records are values: `MakeSorted` returns the updated record. */
module KMers {
  import opened Bits
  import opened Alphabets
  import opened Keys
  import opened Nodes

  datatype KMer = KMer(key: u64, from: u64, to: u64)

  /** `KMer::operator<`: only the label part of the keys is compared. */
  predicate Less(a: KMer, b: KMer) {
    Kmer(a.key) < Kmer(b.key)
  }

  /** `operator<(key_type, KMer)`: a bare key against a k-mer, by label. */
  predicate KeyLess(key: u64, b: KMer) {
    Kmer(key) < Kmer(b.key)
  }

  /** The path has a unique label and will not be extended. */
  predicate Sorted(k: KMer) {
    k.from == k.to
  }

  /** `makeSorted`: the range collapses onto its start. */
  function MakeSorted(k: KMer): (r: KMer)
    ensures Sorted(r) && r.key == k.key && r.from == k.from
  {
    k.(to := k.from)
  }

  // ---------------------------------------------------------------------------
  // The order

  /** `Less` is a strict weak order whose equivalence classes are the labels:
      irreflexive, transitive, and two k-mers are incomparable exactly when they
      carry the same label. */
  lemma LessIsStrictWeakOrder(a: KMer, b: KMer, c: KMer)
    ensures !Less(a, a)
    ensures Less(a, b) && Less(b, c) ==> Less(a, c)
    ensures (!Less(a, b) && !Less(b, a)) <==> Kmer(a.key) == Kmer(b.key)
    ensures KeyLess(a.key, b) == Less(a, b)
  {
  }

  /** Merging another key's bitmaps into a k-mer's key does not move it in the order. */
  lemma MergeKeepsOrder(a: KMer, b: KMer, other: u64)
    ensures Less(a.(key := Merge(a.key, other)), b) == Less(a, b)
    ensures Less(b, a.(key := Merge(a.key, other))) == Less(b, a)
  {
    MergeFields(a.key, other);
  }

  /** Whatever bitmaps are packed below the label, the order is the same. */
  lemma BitmapsDoNotOrder(a: KMer, b: KMer, pred: byte, succ: byte)
    ensures var a' := a.(key := Kmer(a.key) * 65536 + pred * 256 + succ);
      a'.key < TWO_64 && Less(a', b) == Less(a, b) && Less(b, a') == Less(b, a)
  {
    var v := Kmer(a.key);
    assert a.key == v * 65536 + a.key % 65536;
    assert v * 65536 + pred * 256 + succ < TWO_64;
    UnpackSum(v, pred, succ);
  }

  // ---------------------------------------------------------------------------
  // KMer::chars

  /** `val |= 1 << c` on a byte: the OR, truncated to 8 bits. */
  function AddChar(val: byte, c: nat): (r: byte)
  {
    LowBound(Or(val, Shl(1, c)), 8);
    Pow2Values();
    Low(Or(val, Shl(1, c)), 8)
  }

  /** The bitmap after the characters at the even positions below `n`. */
  function CharsUpTo(char2comp: seq<byte>, token: string, n: nat): (val: byte)
    requires |char2comp| == MAX_SIGMA && Bytes(token) && n <= |token|
    decreases n
  {
    if n == 0 then 0
    else if (n - 1) % 2 == 1 then CharsUpTo(char2comp, token, n - 1)
    else AddChar(CharsUpTo(char2comp, token, n - 1), Comp(char2comp, token[n - 1]))
  }

  /** The bitmap `KMer::chars` computes for a whole token. */
  function CharsMask(char2comp: seq<byte>, token: string): (val: byte)
    requires |char2comp| == MAX_SIGMA && Bytes(token)
  {
    CharsUpTo(char2comp, token, |token|)
  }

  /** Some even position below `n` holds a character of comp value `j`. */
  predicate EvenAt(char2comp: seq<byte>, token: string, n: nat, j: nat)
    requires |char2comp| == MAX_SIGMA && Bytes(token) && n <= |token|
  {
    exists i :: 0 <= i < n && i % 2 == 0 && Comp(char2comp, token[i]) == j
  }

  /** `KMer::chars`: OR in one bit per character at an even position. */
  method Chars(token: string, alpha: Alphabet) returns (val: byte)
    requires alpha.Valid() && Bytes(token)
    ensures val == CharsMask(alpha.char2comp, token)
  {
    val := 0;
    var i := 0;
    while i < |token|
      invariant i % 2 == 0 && i <= |token| + 1
      invariant val == CharsUpTo(alpha.char2comp, token, Min(i, |token|))
    {
      CharsUpToStep(alpha.char2comp, token, i);
      val := AddChar(val, Comp(alpha.char2comp, token[i]));
      i := i + 2;
    }
  }

  /** One iteration of `Chars`: the character at even position `i` is ORed in,
      and the odd position after it changes nothing. */
  lemma CharsUpToStep(char2comp: seq<byte>, token: string, i: nat)
    requires |char2comp| == MAX_SIGMA && Bytes(token) && i < |token| && i % 2 == 0
    ensures CharsUpTo(char2comp, token, Min(i + 2, |token|))
      == AddChar(CharsUpTo(char2comp, token, i), Comp(char2comp, token[i]))
  {
    assert CharsUpTo(char2comp, token, i + 1)
      == AddChar(CharsUpTo(char2comp, token, i), Comp(char2comp, token[i]));
    if i + 1 < |token| {
      assert (i + 1) % 2 == 1 && Min(i + 2, |token|) == i + 2;
    } else {
      assert Min(i + 2, |token|) == i + 1;
    }
  }

  /** Bit `j` of the bitmap is set exactly when `j < 8` and some even position
      holds a character of comp value `j`: odd positions are ignored and comp
      values of 8 or more fall off the byte. */
  lemma {:induction false} CharsUpToBits(char2comp: seq<byte>, token: string, n: nat, j: nat)
    requires |char2comp| == MAX_SIGMA && Bytes(token) && n <= |token|
    ensures Bit(CharsUpTo(char2comp, token, n), j) <==> j < 8 && EvenAt(char2comp, token, n, j)
    decreases n
  {
    if n == 0 {
      ShrZero(0, j);
    } else {
      CharsUpToBits(char2comp, token, n - 1, j);
      var prev := CharsUpTo(char2comp, token, n - 1);
      if (n - 1) % 2 == 1 {
        if EvenAt(char2comp, token, n, j) {
          var i :| 0 <= i < n && i % 2 == 0 && Comp(char2comp, token[i]) == j;
          assert i < n - 1;
        }
      } else {
        var c := Comp(char2comp, token[n - 1]);
        LowBit(Or(prev, Shl(1, c)), 8, j);
        OrBit(prev, Shl(1, c), j);
        ShlOne(c);
        Pow2Bit(c, j);
        if EvenAt(char2comp, token, n, j) && c != j {
          var i :| 0 <= i < n && i % 2 == 0 && Comp(char2comp, token[i]) == j;
          assert i < n - 1;
        }
      }
    }
  }

  /** The whole-token form of `CharsUpToBits`. */
  lemma CharsBits(char2comp: seq<byte>, token: string, j: nat)
    requires |char2comp| == MAX_SIGMA && Bytes(token)
    ensures Bit(CharsMask(char2comp, token), j) <==> j < 8 && EvenAt(char2comp, token, |token|, j)
  {
    CharsUpToBits(char2comp, token, |token|, j);
  }

  /** The bitmap depends only on which comp values occur at even positions, not
      on their order, their multiplicity or the odd positions. */
  lemma CharsOrderFree(char2comp: seq<byte>, t1: string, t2: string)
    requires |char2comp| == MAX_SIGMA && Bytes(t1) && Bytes(t2)
    requires forall j :: 0 <= j < 8 ==> (EvenAt(char2comp, t1, |t1|, j) <==> EvenAt(char2comp, t2, |t2|, j))
    ensures CharsMask(char2comp, t1) == CharsMask(char2comp, t2)
  {
    forall j | 0 <= j < 8
      ensures Bit(CharsMask(char2comp, t1), j) <==> Bit(CharsMask(char2comp, t2), j)
    {
      CharsBits(char2comp, t1, j);
      CharsBits(char2comp, t2, j);
    }
    Pow2Values();
    BitsExt(CharsMask(char2comp, t1), CharsMask(char2comp, t2), 8);
  }

  /** Two tokens that agree on their even positions have the same bitmap. */
  lemma CharsIgnoreOddPositions(char2comp: seq<byte>, t1: string, t2: string)
    requires |char2comp| == MAX_SIGMA && Bytes(t1) && Bytes(t2) && |t1| == |t2|
    requires forall i :: 0 <= i < |t1| && i % 2 == 0 ==> t1[i] == t2[i]
    ensures CharsMask(char2comp, t1) == CharsMask(char2comp, t2)
  {
    forall j | 0 <= j < 8
      ensures EvenAt(char2comp, t1, |t1|, j) <==> EvenAt(char2comp, t2, |t2|, j)
    {
      if EvenAt(char2comp, t1, |t1|, j) {
        var i :| 0 <= i < |t1| && i % 2 == 0 && Comp(char2comp, t1[i]) == j;
        assert Comp(char2comp, t2[i]) == j;
      }
      if EvenAt(char2comp, t2, |t2|, j) {
        var i :| 0 <= i < |t2| && i % 2 == 0 && Comp(char2comp, t2[i]) == j;
        assert Comp(char2comp, t1[i]) == j;
      }
    }
    CharsOrderFree(char2comp, t1, t2);
  }

  // ---------------------------------------------------------------------------
  // KMer(tokens, alpha, successor)

  /** The constructor either builds a k-mer or lets `std::stoul` throw. */
  datatype Outcome = Made(kmer: KMer) | Threw

  /** The k-mer a line of tokens describes: label, start node, predecessor and
      successor characters, and the node in column `successor`. */
  function KMerOf(char2comp: seq<byte>, l: Layout, tokens: seq<string>, successor: nat): Outcome
    requires |char2comp| == MAX_SIGMA && ValidLayout(l)
    requires |tokens| >= 4 && successor < |tokens|
    requires Bytes(tokens[0]) && Bytes(tokens[2]) && Bytes(tokens[3])
  {
    var key := Pack(LabelValue(char2comp, tokens[0]), CharsMask(char2comp, tokens[2]), CharsMask(char2comp, tokens[3]));
    var from := EncodeToken(l, tokens[1]);
    var to := EncodeToken(l, tokens[successor]);
    if from.Thrown? || to.Thrown? then Threw
    else Made(KMer(key, from.Value(), to.Value()))
  }

  /** `KMer(tokens, alpha, successor)`. */
  method FromTokens(tokens: seq<string>, alpha: Alphabet, l: Layout, successor: nat) returns (r: Outcome)
    requires alpha.Valid() && ValidLayout(l)
    requires |tokens| >= 4 && successor < |tokens|
    requires Bytes(tokens[0]) && Bytes(tokens[2]) && Bytes(tokens[3])
    ensures r == KMerOf(alpha.char2comp, l, tokens, successor)
  {
    var predecessors := Chars(tokens[2], alpha);
    var successors := Chars(tokens[3], alpha);
    var key := Keys.Encode(alpha, tokens[0], predecessors, successors);
    var from := EncodeToken(l, tokens[1]);
    if from.Thrown? {
      return Threw;
    }
    var to := EncodeToken(l, tokens[successor]);
    if to.Thrown? {
      return Threw;
    }
    r := Made(KMer(key, from.Value(), to.Value()));
  }

  /** What a built k-mer holds: its key's label is the base-8 number of the label's
      comp values, its bitmaps are those of the predecessor and successor tokens,
      and `from` reads back the id and offset printed in the second column. */
  lemma KMerOfFields(char2comp: seq<byte>, l: Layout, tokens: seq<string>, successor: nat)
    requires |char2comp| == MAX_SIGMA && ValidLayout(l)
    requires |tokens| >= 4 && successor < |tokens|
    requires Bytes(tokens[0]) && Bytes(tokens[2]) && Bytes(tokens[3])
    requires |tokens[0]| <= MAX_LENGTH && Digits3(Comps(char2comp, tokens[0]))
    requires KMerOf(char2comp, l, tokens, successor).Made?
    ensures var k := KMerOf(char2comp, l, tokens, successor).kmer;
      Kmer(k.key) == Base8(Comps(char2comp, tokens[0]))
      && Predecessors(k.key) == CharsMask(char2comp, tokens[2])
      && Successors(k.key) == CharsMask(char2comp, tokens[3])
      && k.from == EncodeToken(l, tokens[1]).Value()
  {
    Keys.EncodeFields(char2comp, tokens[0], CharsMask(char2comp, tokens[2]), CharsMask(char2comp, tokens[3]));
  }

  /** A start node written as `Node::decode` prints it is read back exactly. */
  lemma FromOfPrintedNode(char2comp: seq<byte>, l: Layout, tokens: seq<string>, successor: nat, node: u64)
    requires |char2comp| == MAX_SIGMA && ValidLayout(l)
    requires |tokens| >= 4 && successor < |tokens|
    requires Bytes(tokens[0]) && Bytes(tokens[2]) && Bytes(tokens[3])
    requires tokens[1] == Nodes.Decode(l, node)
    requires KMerOf(char2comp, l, tokens, successor).Made?
    ensures KMerOf(char2comp, l, tokens, successor).kmer.from == node
  {
    EncodeTokenOfDecode(l, node);
  }
}
