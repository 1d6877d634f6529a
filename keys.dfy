/** Keys: a k-mer of up to 16 characters packed into 64 bits, three bits per
    character with the first character most significant, followed by an 8-bit
    predecessor bitmap and an 8-bit successor bitmap. */
module Keys {
  import opened Bits
  import opened Alphabets

  const CHAR_MASK: nat := 7
  const MAX_LENGTH: nat := 16

  /** `key >> 16`: the packed label. */
  function Kmer(key: u64): nat {
    key / 65536
  }

  /** `(key >> 8) & 0xFF`. */
  function Predecessors(key: u64): byte {
    (key / 256) % 256
  }

  /** `key & 0xFF`. */
  function Successors(key: u64): byte {
    key % 256
  }

  /** `(key >> 16) & CHAR_MASK`: the comp value of the last label character. */
  function Last(key: u64): nat {
    (key / 65536) % 8
  }

  /** `key1 | (key2 & 0xFFFF)`. */
  function Merge(key1: u64, key2: u64): u64 {
    OrBound64(key1, key2 % 65536);
    Or(key1, key2 % 65536)
  }

  /** `(kmer_val << 16) | (key & 0xFFFF)`, the shift wrapping at 64 bits. */
  function Replace(key: u64, kmerVal: u64): u64 {
    OrBound64((kmerVal * 65536) % TWO_64, key % 65536);
    Or((kmerVal * 65536) % TWO_64, key % 65536)
  }

  /** The value `Key::encode` has accumulated after the characters of `lbl`:
      each step is `(value << 3) | char2comp[c]` in 64 bits. */
  function LabelValue(char2comp: seq<byte>, lbl: string): u64
    requires |char2comp| == MAX_SIGMA && Bytes(lbl)
  {
    if lbl == [] then 0
    else
      var prev := LabelValue(char2comp, lbl[..|lbl| - 1]);
      var comp := Comp(char2comp, lbl[|lbl| - 1]);
      OrBound64((prev * 8) % TWO_64, comp);
      Or((prev * 8) % TWO_64, comp)
  }

  /** The two bitmap steps that finish `Key::encode`. */
  function Pack(value: u64, pred: byte, succ: byte): u64 {
    OrBound64((value * 256) % TWO_64, pred);
    var withPred := Or((value * 256) % TWO_64, pred);
    OrBound64((withPred * 256) % TWO_64, succ);
    Or((withPred * 256) % TWO_64, succ)
  }

  /** `Key::encode`: shift in three bits per label character, then the two bitmaps. */
  method Encode(alpha: Alphabet, lbl: string, pred: byte, succ: byte) returns (key: u64)
    requires alpha.Valid() && Bytes(lbl)
    ensures key == Pack(LabelValue(alpha.char2comp, lbl), pred, succ)
  {
    var value: u64 := 0;
    var i := 0;
    while i < |lbl|
      invariant 0 <= i <= |lbl|
      invariant value == LabelValue(alpha.char2comp, lbl[..i])
    {
      assert lbl[..i + 1][..i] == lbl[..i];
      var comp := alpha.char2comp[lbl[i] as int];
      OrBound64((value * 8) % TWO_64, comp);
      value := Or((value * 8) % TWO_64, comp);
      i := i + 1;
    }
    assert lbl[..i] == lbl;
    OrBound64((value * 256) % TWO_64, pred);
    value := Or((value * 256) % TWO_64, pred);
    OrBound64((value * 256) % TWO_64, succ);
    value := Or((value * 256) % TWO_64, succ);
    key := value;
  }

  // ---------------------------------------------------------------------------
  // Reference definition: the label as a base-8 number

  /** The comp values of the characters of `lbl`, in order. */
  function Comps(char2comp: seq<byte>, lbl: string): (ds: seq<nat>)
    requires |char2comp| == MAX_SIGMA && Bytes(lbl)
    ensures |ds| == |lbl|
    ensures forall i :: 0 <= i < |lbl| ==> ds[i] == Comp(char2comp, lbl[i])
  {
    seq(|lbl|, i requires 0 <= i < |lbl| => Comp(char2comp, lbl[i]))
  }

  /** The number whose base-8 digits are `ds`, most significant first. */
  function Base8(ds: seq<nat>): nat {
    if ds == [] then 0 else Base8(ds[..|ds| - 1]) * 8 + ds[|ds| - 1]
  }

  /** Base-8 digit `i` of `v`, counting from the least significant. */
  function Digit(v: nat, i: nat): nat {
    if i == 0 then v % 8 else Digit(v / 8, i - 1)
  }

  predicate Digits3(ds: seq<nat>) {
    forall i :: 0 <= i < |ds| ==> ds[i] < 8
  }

  lemma {:induction false} Base8Bound(ds: seq<nat>)
    requires Digits3(ds)
    ensures Base8(ds) < Pow2(3 * |ds|)
  {
    if ds != [] {
      var n := |ds|;
      Base8Bound(ds[..n - 1]);
      Pow2Plus3(3 * (n - 1));
    }
  }

  lemma Pow2Plus3(k: nat)
    ensures Pow2(k + 3) == 8 * Pow2(k)
  {
    assert Pow2(k + 3) == 2 * Pow2(k + 2);
    assert Pow2(k + 2) == 2 * Pow2(k + 1);
  }

  /** Digit `i` of a base-8 number is the `i`-th digit from the end. */
  lemma {:induction false} Base8Digit(ds: seq<nat>, i: nat)
    requires Digits3(ds) && i < |ds|
    ensures Digit(Base8(ds), i) == ds[|ds| - 1 - i]
  {
    var n := |ds|;
    var v := Base8(ds[..n - 1]);
    MulDiv(v, ds[n - 1], 8);
    if i > 0 {
      Base8Digit(ds[..n - 1], i - 1);
    }
  }

  /** With comp values below 8 and at most 16 characters, nothing wraps and every
      OR is an addition: the accumulated value is the base-8 reading of the label. */
  lemma {:induction false} LabelValueIsBase8(char2comp: seq<byte>, lbl: string)
    requires |char2comp| == MAX_SIGMA && Bytes(lbl) && |lbl| <= MAX_LENGTH
    requires Digits3(Comps(char2comp, lbl))
    ensures LabelValue(char2comp, lbl) == Base8(Comps(char2comp, lbl))
  {
    if lbl != [] {
      var n := |lbl|;
      var ds := Comps(char2comp, lbl);
      var prefix := lbl[..n - 1];
      assert Comps(char2comp, prefix) == ds[..n - 1];
      LabelValueIsBase8(char2comp, prefix);
      Base8Bound(ds[..n - 1]);
      LabelStep(LabelValue(char2comp, prefix), n - 1, ds[n - 1]);
    }
  }

  /** One more character on a label of fewer than 16: the shift does not wrap and
      the OR is an addition. */
  lemma LabelStep(x: nat, n: nat, d: nat)
    requires n < MAX_LENGTH && x < Pow2(3 * n) && d < 8
    ensures (x * 8) % TWO_64 == x * 8
    ensures Or((x * 8) % TWO_64, d) == x * 8 + d
  {
    assert x * 8 < 0x1_0000_0000_0000 by {
      Pow2Mono(3 * n, 45);
      Pow2Plus3(45);
      Pow2Values();
    }
    assert (x * 8) % TWO_64 == x * 8;
    OrLow3(x, d);
  }

  /** ORing a comp value below 8 into a value shifted left by 3 is addition. */
  lemma OrLow3(x: nat, y: nat)
    requires y < 8
    ensures Or(x * 8, y) == x * 8 + y
  {
    Pow2Plus3(0);
    OrLow(x, y, 3);
  }

  /** The label of at most 16 characters fits in the 48 bits above the bitmaps. */
  lemma LabelFits(char2comp: seq<byte>, lbl: string)
    requires |char2comp| == MAX_SIGMA && Bytes(lbl) && |lbl| <= MAX_LENGTH
    requires Digits3(Comps(char2comp, lbl))
    ensures LabelValue(char2comp, lbl) < 0x1_0000_0000_0000
  {
    LabelValueIsBase8(char2comp, lbl);
    Base8Bound(Comps(char2comp, lbl));
    Pow2Mono(3 * |lbl|, 48);
    Pow2Values();
  }

  lemma PackIsSum(value: u64, pred: byte, succ: byte)
    requires value < 0x1_0000_0000_0000
    ensures Pack(value, pred, succ) == value * 65536 + pred * 256 + succ
  {
    ShiftOr8(value, pred);
    ShiftOr8(value * 256 + pred, succ);
  }

  /** `(x << 8) | y` in 64 bits, for `x` of at most 56 bits. */
  lemma ShiftOr8(x: nat, y: byte)
    requires x < 0x100_0000_0000_0000
    ensures Or((x * 256) % TWO_64, y) == x * 256 + y
  {
    assert (x * 256) % TWO_64 == x * 256;
    OrLow8(x, y);
  }

  /** The fields of an encoded key: the label reads back as the base-8 number of
      its comp values, the bitmaps read back unchanged, and `Last` is the comp
      value of the final character. */
  lemma EncodeFields(char2comp: seq<byte>, lbl: string, pred: byte, succ: byte)
    requires |char2comp| == MAX_SIGMA && Bytes(lbl) && |lbl| <= MAX_LENGTH
    requires Digits3(Comps(char2comp, lbl))
    ensures var key := Pack(LabelValue(char2comp, lbl), pred, succ);
      && Kmer(key) == Base8(Comps(char2comp, lbl))
      && Predecessors(key) == pred
      && Successors(key) == succ
      && (lbl != [] ==> Last(key) == Comp(char2comp, lbl[|lbl| - 1]))
  {
    var value := LabelValue(char2comp, lbl);
    LabelValueIsBase8(char2comp, lbl);
    LabelFits(char2comp, lbl);
    PackIsSum(value, pred, succ);
    UnpackSum(value, pred, succ);
    if lbl != [] {
      Base8Digit(Comps(char2comp, lbl), 0);
    }
  }

  lemma UnpackSum(value: nat, pred: byte, succ: byte)
    ensures var key := value * 65536 + pred * 256 + succ;
      key / 65536 == value && (key / 256) % 256 == pred && key % 256 == succ
  {
    MulDiv(value, pred * 256 + succ, 65536);
    assert value * 65536 + pred * 256 + succ == (value * 256 + pred) * 256 + succ;
    MulDiv(value * 256 + pred, succ, 256);
    MulDiv(value, pred, 256);
  }

  // ---------------------------------------------------------------------------
  // Decoding

  function Min(a: nat, b: nat): nat {
    if a < b then a else b
  }

  /** Every 3-bit group `Key::decode` reads names an entry of `comp2char`. */
  predicate Decodable(key: u64, kmerLength: nat, comp2char: seq<byte>) {
    forall i :: 0 <= i < Min(kmerLength, MAX_LENGTH) ==> Digit(Kmer(key), i) < |comp2char|
  }

  /** The string `Key::decode` returns: `min(kmerLength, 16)` characters, the last
      one translating the lowest 3-bit group of the label. */
  function DecodeLabel(key: u64, kmerLength: nat, comp2char: seq<byte>): (s: string)
    requires Decodable(key, kmerLength, comp2char)
    ensures |s| == Min(kmerLength, MAX_LENGTH)
  {
    var n := Min(kmerLength, MAX_LENGTH);
    seq(n, j requires 0 <= j < n => comp2char[Digit(Kmer(key), n - 1 - j)] as char)
  }

  /** `Key::decode`: translate the 3-bit groups of the label back, lowest group
      last. Every group read must name an entry of `comp2char`. */
  method Decode(key: u64, kmerLength: nat, alpha: Alphabet) returns (s: string)
    requires Decodable(key, kmerLength, alpha.comp2char)
    ensures |s| == Min(kmerLength, MAX_LENGTH)
    ensures forall j :: 0 <= j < |s| ==> s[j] == alpha.comp2char[Digit(Kmer(key), |s| - 1 - j)] as char
    ensures s == DecodeLabel(key, kmerLength, alpha.comp2char)
  {
    var v := Kmer(key);
    var n := Min(kmerLength, MAX_LENGTH);
    var res := new char[n](_ => 0 as char);
    var i := 1;
    while i <= n
      invariant 1 <= i <= n + 1
      invariant v == Shr8(Kmer(key), i - 1)
      invariant forall j: int :: n < j + i && 0 <= j < n ==> res[j] == alpha.comp2char[Digit(Kmer(key), n - 1 - j)] as char
    {
      DigitShr8(Kmer(key), i - 1);
      res[n - i] := alpha.comp2char[v % 8] as char;
      ShrShr8(Kmer(key), i - 1);
      v := v / 8;
      i := i + 1;
    }
    s := res[..];
    assert s == DecodeLabel(key, kmerLength, alpha.comp2char);
  }

  /** `v` shifted right by `i` groups of three bits. */
  function Shr8(v: nat, i: nat): nat {
    if i == 0 then v else Shr8(v / 8, i - 1)
  }

  lemma {:induction false} DigitShr8(v: nat, i: nat)
    ensures Digit(v, i) == Shr8(v, i) % 8
  {
    if i > 0 {
      DigitShr8(v / 8, i - 1);
    }
  }

  lemma {:induction false} ShrShr8(v: nat, i: nat)
    ensures Shr8(v, i + 1) == Shr8(v, i) / 8
  {
    if i > 0 {
      ShrShr8(v / 8, i - 1);
    }
  }

  /** Decoding an encoded key gives the label back, for labels of at most 16
      characters whose comp values fit in three bits and whose characters are
      the representatives `comp2char` maps their comp values to. */
  lemma DecodeEncode(char2comp: seq<byte>, comp2char: seq<byte>, lbl: string, pred: byte, succ: byte)
    requires |char2comp| == MAX_SIGMA && Bytes(lbl) && |lbl| <= MAX_LENGTH
    requires Digits3(Comps(char2comp, lbl))
    requires forall i :: 0 <= i < |lbl| ==>
      Comp(char2comp, lbl[i]) < |comp2char| && comp2char[Comp(char2comp, lbl[i])] as char == lbl[i]
    ensures var key := Pack(LabelValue(char2comp, lbl), pred, succ);
      Decodable(key, |lbl|, comp2char) && DecodeLabel(key, |lbl|, comp2char) == lbl
  {
    var key := Pack(LabelValue(char2comp, lbl), pred, succ);
    EncodeFields(char2comp, lbl, pred, succ);
    DecodeBase8(key, Comps(char2comp, lbl), lbl, comp2char);
  }

  /** A key whose label holds the base-8 digits `ds` decodes to the string that
      `comp2char` spells from those digits. */
  lemma DecodeBase8(key: u64, ds: seq<nat>, lbl: string, comp2char: seq<byte>)
    requires |ds| == |lbl| <= MAX_LENGTH && Digits3(ds) && Kmer(key) == Base8(ds)
    requires forall i :: 0 <= i < |lbl| ==> ds[i] < |comp2char| && comp2char[ds[i]] as char == lbl[i]
    ensures Decodable(key, |lbl|, comp2char) && DecodeLabel(key, |lbl|, comp2char) == lbl
  {
    var n := |lbl|;
    assert Min(n, MAX_LENGTH) == n;
    forall i | 0 <= i < n
      ensures Digit(Kmer(key), i) == ds[n - 1 - i]
    {
      Base8Digit(ds, i);
    }
    var s := DecodeLabel(key, n, comp2char);
    forall j | 0 <= j < n
      ensures s[j] == lbl[j]
    {
      assert Digit(Kmer(key), n - 1 - j) == ds[j];
    }
  }

  /** `Key::lastChars`: the last character of every key. */
  method LastChars(keys: seq<u64>) returns (lastChar: seq<nat>)
    ensures |lastChar| == |keys|
    ensures forall i :: 0 <= i < |keys| ==> lastChar[i] == Last(keys[i]) && lastChar[i] <= CHAR_MASK
  {
    var a := new nat[|keys|](_ => 0);
    var i := 0;
    while i < |keys|
      invariant 0 <= i <= |keys|
      invariant forall j :: 0 <= j < i ==> a[j] == Last(keys[j])
    {
      a[i] := Last(keys[i]);
      i := i + 1;
    }
    lastChar := a[..];
  }

  // ---------------------------------------------------------------------------
  // Merge and replace

  /** `(k % 65536) / 256` and `(k % 65536) % 256` read the same bytes as `k`. */
  lemma LowBytes(k: nat)
    ensures (k % 65536) / 256 == (k / 256) % 256
    ensures (k % 65536) % 256 == k % 256
  {
    DivDiv(k, 256, 256);
    MulDiv((k / 256) % 256, k % 256, 256);
  }

  /** Merging keeps the first key's label and unions the bitmaps. */
  lemma MergeFields(key1: u64, key2: u64)
    ensures Kmer(Merge(key1, key2)) == Kmer(key1)
    ensures Predecessors(Merge(key1, key2)) == Or(Predecessors(key1), Predecessors(key2))
    ensures Successors(Merge(key1, key2)) == Or(Successors(key1), Successors(key2))
  {
    var m := key2 % 65536;
    var r := Or(key1, m);
    assert r / 65536 == key1 / 65536 by {
      OrHigh16(key1, m);
    }
    assert (m / 256) % 256 == (key2 / 256) % 256 && m % 256 == key2 % 256 by {
      LowBytes(key2);
    }
    assert (r / 256) % 256 == Or((key1 / 256) % 256, (m / 256) % 256) by {
      OrByte1(key1, m);
    }
    assert r % 256 == Or(key1 % 256, m % 256) by {
      OrByte0(key1, m);
    }
  }


  /** `(v << 16)` in 64 bits keeps the low 48 bits of `v`. */
  lemma ShiftLeft16(v: nat)
    ensures (v * 65536) % TWO_64 == (v % 0x1_0000_0000_0000) * 65536
  {
    DivDiv(v * 65536, 65536, 0x1_0000_0000_0000);
    MulDiv(v, 0, 65536);
  }

  /** Replacing the label stores the new value's low 48 bits and keeps both bitmaps. */
  lemma ReplaceFields(key: u64, kmerVal: u64)
    ensures Kmer(Replace(key, kmerVal)) == kmerVal % 0x1_0000_0000_0000
    ensures Replace(key, kmerVal) % 65536 == key % 65536
    ensures Predecessors(Replace(key, kmerVal)) == Predecessors(key)
    ensures Successors(Replace(key, kmerVal)) == Successors(key)
  {
    var high := kmerVal % 0x1_0000_0000_0000;
    var low := key % 65536;
    ShiftLeft16(kmerVal);
    OrLow16(high, low);
    var r := high * 65536 + low;
    assert Replace(key, kmerVal) == r;
    MulDiv(high, low, 65536);
    LowBytes(r);
    LowBytes(key);
  }
}
