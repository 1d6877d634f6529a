/** The byte alphabet: `char2comp` maps each of the 256 byte values to a compact
    symbol ("comp value"), `comp2char` maps comp values back to bytes, and `C`
    holds cumulative symbol counts, so that `C[c]` is the number of symbols in the
    indexed text whose comp value is below `c` and `C[sigma]` is the text length. */
module Alphabets {
  import opened Bits

  const MAX_SIGMA: nat := 256

  /** \0 and '$' are endmarkers, ACGT and acgt are ACGT, '#' labels the source
      node, and every other byte is N. The table is kept in the 16 rows of 16
      entries it is written in; `DEFAULT_CHAR2COMP` is their concatenation. */
  const DEFAULT_CHAR2COMP_ROWS: seq<seq<byte>> := [
    [0, 5, 5, 5,  5, 5, 5, 5,  5, 5, 5, 5,  5, 5, 5, 5],
    [5, 5, 5, 5,  5, 5, 5, 5,  5, 5, 5, 5,  5, 5, 5, 5],
    [5, 5, 5, 6,  0, 5, 5, 5,  5, 5, 5, 5,  5, 5, 5, 5],
    [5, 5, 5, 5,  5, 5, 5, 5,  5, 5, 5, 5,  5, 5, 5, 5],
    [5, 1, 5, 2,  5, 5, 5, 3,  5, 5, 5, 5,  5, 5, 5, 5],
    [5, 5, 5, 5,  4, 5, 5, 5,  5, 5, 5, 5,  5, 5, 5, 5],
    [5, 1, 5, 2,  5, 5, 5, 3,  5, 5, 5, 5,  5, 5, 5, 5],
    [5, 5, 5, 5,  4, 5, 5, 5,  5, 5, 5, 5,  5, 5, 5, 5],
    [5, 5, 5, 5,  5, 5, 5, 5,  5, 5, 5, 5,  5, 5, 5, 5],
    [5, 5, 5, 5,  5, 5, 5, 5,  5, 5, 5, 5,  5, 5, 5, 5],
    [5, 5, 5, 5,  5, 5, 5, 5,  5, 5, 5, 5,  5, 5, 5, 5],
    [5, 5, 5, 5,  5, 5, 5, 5,  5, 5, 5, 5,  5, 5, 5, 5],
    [5, 5, 5, 5,  5, 5, 5, 5,  5, 5, 5, 5,  5, 5, 5, 5],
    [5, 5, 5, 5,  5, 5, 5, 5,  5, 5, 5, 5,  5, 5, 5, 5],
    [5, 5, 5, 5,  5, 5, 5, 5,  5, 5, 5, 5,  5, 5, 5, 5],
    [5, 5, 5, 5,  5, 5, 5, 5,  5, 5, 5, 5,  5, 5, 5, 5]
  ]

  const DEFAULT_CHAR2COMP: seq<byte> := Flatten(DEFAULT_CHAR2COMP_ROWS)

  function Flatten<T>(rows: seq<seq<T>>): seq<T> {
    if rows == [] then [] else Flatten(rows[..|rows| - 1]) + rows[|rows| - 1]
  }

  lemma {:induction false} FlattenAt<T>(rows: seq<seq<T>>, r: nat, i: nat)
    requires forall k :: 0 <= k < |rows| ==> |rows[k]| == 16
    requires r < |rows| && i < 16
    ensures |Flatten(rows)| == 16 * |rows|
    ensures Flatten(rows)[16 * r + i] == rows[r][i]
  {
    var n := |rows|;
    if r < n - 1 {
      FlattenAt(rows[..n - 1], r, i);
    } else if n > 1 {
      FlattenAt(rows[..n - 1], 0, 0);
    }
  }

  const DEFAULT_COMP2CHAR: seq<byte> := [
    '$' as int, 'A' as int, 'C' as int, 'G' as int, 'T' as int, 'N' as int, '#' as int
  ]

  /** The rule the default table follows, stated byte class by byte class. */
  function DefaultComp(b: byte): (c: byte)
    ensures c < |DEFAULT_COMP2CHAR|
  {
    if b == 0 || b == '$' as int then 0
    else if b == 'A' as int || b == 'a' as int then 1
    else if b == 'C' as int || b == 'c' as int then 2
    else if b == 'G' as int || b == 'g' as int then 3
    else if b == 'T' as int || b == 't' as int then 4
    else if b == '#' as int then 6
    else 5
  }

  lemma RowsFollowRule()
    ensures |DEFAULT_CHAR2COMP_ROWS| == 16
    ensures forall r, i :: 0 <= r < 16 && 0 <= i < 16 ==>
      |DEFAULT_CHAR2COMP_ROWS[r]| == 16 && DEFAULT_CHAR2COMP_ROWS[r][i] == DefaultComp(16 * r + i)
  {
    forall r, i | 0 <= r < 16 && 0 <= i < 16
      ensures |DEFAULT_CHAR2COMP_ROWS[r]| == 16 && DEFAULT_CHAR2COMP_ROWS[r][i] == DefaultComp(16 * r + i)
    {
      RowFollowsRule(r);
    }
  }

  /** Row `r` of the table, entry by entry. */
  lemma RowFollowsRule(r: nat)
    requires r < 16
    ensures |DEFAULT_CHAR2COMP_ROWS[r]| == 16
    ensures forall i :: 0 <= i < 16 ==> DEFAULT_CHAR2COMP_ROWS[r][i] == DefaultComp(16 * r + i)
  {
    if r == 0 { assert DEFAULT_CHAR2COMP_ROWS[0] == [0, 5, 5, 5,  5, 5, 5, 5,  5, 5, 5, 5,  5, 5, 5, 5]; }
    else if r == 1 { assert DEFAULT_CHAR2COMP_ROWS[1] == [5, 5, 5, 5,  5, 5, 5, 5,  5, 5, 5, 5,  5, 5, 5, 5]; }
    else if r == 2 { assert DEFAULT_CHAR2COMP_ROWS[2] == [5, 5, 5, 6,  0, 5, 5, 5,  5, 5, 5, 5,  5, 5, 5, 5]; }
    else if r == 3 { assert DEFAULT_CHAR2COMP_ROWS[3] == [5, 5, 5, 5,  5, 5, 5, 5,  5, 5, 5, 5,  5, 5, 5, 5]; }
    else if r == 4 { assert DEFAULT_CHAR2COMP_ROWS[4] == [5, 1, 5, 2,  5, 5, 5, 3,  5, 5, 5, 5,  5, 5, 5, 5]; }
    else if r == 5 { assert DEFAULT_CHAR2COMP_ROWS[5] == [5, 5, 5, 5,  4, 5, 5, 5,  5, 5, 5, 5,  5, 5, 5, 5]; }
    else if r == 6 { assert DEFAULT_CHAR2COMP_ROWS[6] == [5, 1, 5, 2,  5, 5, 5, 3,  5, 5, 5, 5,  5, 5, 5, 5]; }
    else if r == 7 { assert DEFAULT_CHAR2COMP_ROWS[7] == [5, 5, 5, 5,  4, 5, 5, 5,  5, 5, 5, 5,  5, 5, 5, 5]; }
    else if r == 8 { assert DEFAULT_CHAR2COMP_ROWS[8] == [5, 5, 5, 5,  5, 5, 5, 5,  5, 5, 5, 5,  5, 5, 5, 5]; }
    else if r == 9 { assert DEFAULT_CHAR2COMP_ROWS[9] == [5, 5, 5, 5,  5, 5, 5, 5,  5, 5, 5, 5,  5, 5, 5, 5]; }
    else if r == 10 { assert DEFAULT_CHAR2COMP_ROWS[10] == [5, 5, 5, 5,  5, 5, 5, 5,  5, 5, 5, 5,  5, 5, 5, 5]; }
    else if r == 11 { assert DEFAULT_CHAR2COMP_ROWS[11] == [5, 5, 5, 5,  5, 5, 5, 5,  5, 5, 5, 5,  5, 5, 5, 5]; }
    else if r == 12 { assert DEFAULT_CHAR2COMP_ROWS[12] == [5, 5, 5, 5,  5, 5, 5, 5,  5, 5, 5, 5,  5, 5, 5, 5]; }
    else if r == 13 { assert DEFAULT_CHAR2COMP_ROWS[13] == [5, 5, 5, 5,  5, 5, 5, 5,  5, 5, 5, 5,  5, 5, 5, 5]; }
    else if r == 14 { assert DEFAULT_CHAR2COMP_ROWS[14] == [5, 5, 5, 5,  5, 5, 5, 5,  5, 5, 5, 5,  5, 5, 5, 5]; }
    else if r == 15 { assert DEFAULT_CHAR2COMP_ROWS[15] == [5, 5, 5, 5,  5, 5, 5, 5,  5, 5, 5, 5,  5, 5, 5, 5]; }
  }

  /** The default table is exactly the rule, and every entry names a comp value
      that the default `comp2char` can translate back. */
  lemma DefaultChar2CompIsRule()
    ensures |DEFAULT_CHAR2COMP| == MAX_SIGMA
    ensures forall b: byte :: DEFAULT_CHAR2COMP[b] == DefaultComp(b)
    ensures forall b: byte :: DEFAULT_CHAR2COMP[b] < |DEFAULT_COMP2CHAR|
  {
    RowsFollowRule();
    FlattenAt(DEFAULT_CHAR2COMP_ROWS, 0, 0);
    forall b: byte
      ensures DEFAULT_CHAR2COMP[b] == DefaultComp(b)
    {
      var r, i := b / 16, b % 16;
      assert 16 * r + i == b;
      FlattenAt(DEFAULT_CHAR2COMP_ROWS, r, i);
      assert DEFAULT_CHAR2COMP_ROWS[r][i] == DefaultComp(16 * r + i);
    }
  }

  /** `comp2char` is a right inverse of `char2comp` on the default alphabet: each
      comp value's representative byte maps back to that comp value. */
  lemma DefaultComp2CharInverse()
    ensures |DEFAULT_COMP2CHAR| == 7 && |DEFAULT_CHAR2COMP| == MAX_SIGMA
    ensures forall c :: 0 <= c < 7 ==> DEFAULT_CHAR2COMP[DEFAULT_COMP2CHAR[c]] == c
  {
    DefaultChar2CompIsRule();
  }

  /** Every character of `s` is a byte, so it can index `char2comp`. */
  predicate Bytes(s: string) {
    forall i :: 0 <= i < |s| ==> s[i] as int < MAX_SIGMA
  }

  /** The comp value of a character. */
  function Comp(char2comp: seq<byte>, ch: char): byte
    requires |char2comp| == MAX_SIGMA && ch as int < MAX_SIGMA
  {
    char2comp[ch as int]
  }

  // ---------------------------------------------------------------------------
  // Counting symbols

  /** Number of bytes of `s` whose comp value is `c`. */
  function Occurrences(s: seq<byte>, char2comp: seq<byte>, c: nat): nat
    requires |char2comp| == MAX_SIGMA
  {
    if s == [] then 0
    else Occurrences(s[..|s| - 1], char2comp, c) + (if char2comp[s[|s| - 1]] == c then 1 else 0)
  }

  /** Number of bytes of `s` whose comp value is below `i`. */
  function CountBelow(s: seq<byte>, char2comp: seq<byte>, i: nat): nat
    requires |char2comp| == MAX_SIGMA
  {
    if s == [] then 0
    else CountBelow(s[..|s| - 1], char2comp, i) + (if char2comp[s[|s| - 1]] < i then 1 else 0)
  }

  function Sum(s: seq<nat>): nat {
    if s == [] then 0 else Sum(s[..|s| - 1]) + s[|s| - 1]
  }

  /** Counts of the comp values `0 .. n-1` in `s`. */
  function OccurrenceCounts(s: seq<byte>, char2comp: seq<byte>, n: nat): (counts: seq<nat>)
    requires |char2comp| == MAX_SIGMA
    ensures |counts| == n
    ensures forall c :: 0 <= c < n ==> counts[c] == Occurrences(s, char2comp, c)
  {
    seq(n, c requires 0 <= c < n => Occurrences(s, char2comp, c))
  }

  /** Moving the bound up by one adds the occurrences of the comp value passed. */
  lemma {:induction false} CountBelowStep(s: seq<byte>, char2comp: seq<byte>, i: nat)
    requires |char2comp| == MAX_SIGMA
    ensures CountBelow(s, char2comp, i + 1) == CountBelow(s, char2comp, i) + Occurrences(s, char2comp, i)
  {
    if s != [] {
      CountBelowStep(s[..|s| - 1], char2comp, i);
    }
  }

  /** `C` is non-decreasing. */
  lemma {:induction false} CountBelowMonotone(s: seq<byte>, char2comp: seq<byte>, i: nat, j: nat)
    requires |char2comp| == MAX_SIGMA
    requires i <= j
    ensures CountBelow(s, char2comp, i) <= CountBelow(s, char2comp, j)
  {
    if s != [] {
      CountBelowMonotone(s[..|s| - 1], char2comp, i, j);
    }
  }

  /** With every comp value below `k`, counting below `k` counts the whole text. */
  lemma {:induction false} CountBelowTotal(s: seq<byte>, char2comp: seq<byte>, k: nat)
    requires |char2comp| == MAX_SIGMA
    requires forall i :: 0 <= i < |s| ==> char2comp[s[i]] < k
    ensures CountBelow(s, char2comp, k) == |s|
  {
    if s != [] {
      CountBelowTotal(s[..|s| - 1], char2comp, k);
    }
  }

  /** Nothing has a comp value below zero. */
  lemma {:induction false} CountBelowZero(s: seq<byte>, char2comp: seq<byte>)
    requires |char2comp| == MAX_SIGMA
    ensures CountBelow(s, char2comp, 0) == 0
  {
    if s != [] {
      CountBelowZero(s[..|s| - 1], char2comp);
    }
  }

  /** The prefix sums of the per-symbol counts are the cumulative counts: the counts
      constructor given the text's symbol counts builds the same `C` as the
      sequence constructor given the text. */
  lemma {:induction false} PrefixSumOfCounts(s: seq<byte>, char2comp: seq<byte>, i: nat)
    requires |char2comp| == MAX_SIGMA
    ensures Sum(OccurrenceCounts(s, char2comp, i)) == CountBelow(s, char2comp, i)
  {
    if i == 0 {
      CountBelowZero(s, char2comp);
    } else {
      var counts := OccurrenceCounts(s, char2comp, i);
      assert counts[..i - 1] == OccurrenceCounts(s, char2comp, i - 1);
      PrefixSumOfCounts(s, char2comp, i - 1);
      CountBelowStep(s, char2comp, i - 1);
    }
  }

  /** A text has no more symbols below any bound than it has symbols. */
  lemma {:induction false} CountBelowBound(s: seq<byte>, char2comp: seq<byte>, i: nat)
    requires |char2comp| == MAX_SIGMA
    ensures CountBelow(s, char2comp, i) <= |s|
  {
    if s != [] {
      CountBelowBound(s[..|s| - 1], char2comp, i);
    }
  }

  /** A text has no more symbols of one comp value than it has symbols. */
  lemma {:induction false} OccurrencesBound(s: seq<byte>, char2comp: seq<byte>, c: nat)
    requires |char2comp| == MAX_SIGMA
    ensures Occurrences(s, char2comp, c) <= |s|
  {
    if s != [] {
      OccurrencesBound(s[..|s| - 1], char2comp, c);
    }
  }

  /** The two constructors agree: for a text shorter than 2^64, its per-comp counts
      are 64-bit values, and the wrapping prefix sums the counts constructor stores
      in `C[i]` are the cumulative counts the sequence constructor stores there. */
  lemma ConstructorsAgree(s: seq<byte>, char2comp: seq<byte>, sigma: nat, i: nat)
    requires |char2comp| == MAX_SIGMA && |s| < TWO_64 && i <= sigma
    ensures forall c :: 0 <= c < sigma ==> OccurrenceCounts(s, char2comp, sigma)[c] < TWO_64
    ensures Sum(OccurrenceCounts(s, char2comp, sigma)[..i]) % TWO_64 == CountBelow(s, char2comp, i)
  {
    forall c | 0 <= c < sigma
      ensures OccurrenceCounts(s, char2comp, sigma)[c] < TWO_64
    {
      OccurrencesBound(s, char2comp, c);
    }
    assert OccurrenceCounts(s, char2comp, sigma)[..i] == OccurrenceCounts(s, char2comp, i);
    PrefixSumOfCounts(s, char2comp, i);
    CountBelowBound(s, char2comp, i);
  }

  /** `characterCounts`: zero `counts`, then count every symbol of `sequence`. */
  method CharacterCounts(sequence: seq<byte>, char2comp: seq<byte>, counts: array<nat>)
    requires |char2comp| == MAX_SIGMA
    requires forall i :: 0 <= i < |sequence| ==> char2comp[sequence[i]] < counts.Length
    modifies counts
    ensures forall c :: 0 <= c < counts.Length ==> counts[c] == Occurrences(sequence, char2comp, c)
  {
    var c := 0;
    while c < counts.Length
      invariant 0 <= c <= counts.Length
      invariant forall d :: 0 <= d < c ==> counts[d] == 0
    {
      counts[c] := 0;
      c := c + 1;
    }
    var i := 0;
    while i < |sequence|
      invariant 0 <= i <= |sequence|
      invariant forall d :: 0 <= d < counts.Length ==> counts[d] == Occurrences(sequence[..i], char2comp, d)
    {
      assert sequence[..i + 1][..i] == sequence[..i];
      var comp := char2comp[sequence[i]];
      counts[comp] := counts[comp] + 1;
      i := i + 1;
    }
    assert sequence[..i] == sequence;
  }

  class Alphabet {
    var char2comp: seq<byte>
    var comp2char: seq<byte>
    var C: array<nat>
    var sigma: nat

    ghost predicate Valid()
      reads this
    {
      |char2comp| == MAX_SIGMA && sigma == |comp2char| && C.Length == sigma + 1
    }

    /** The default alphabet with no text counted. */
    constructor Default()
      ensures Valid() && fresh(C)
      ensures char2comp == DEFAULT_CHAR2COMP && comp2char == DEFAULT_COMP2CHAR
      ensures sigma == 7 && C.Length == 8
      ensures forall i :: 0 <= i < C.Length ==> C[i] == 0
    {
      DefaultChar2CompIsRule();
      char2comp := DEFAULT_CHAR2COMP;
      comp2char := DEFAULT_COMP2CHAR;
      C := new nat[|DEFAULT_COMP2CHAR| + 1](_ => 0);
      sigma := |DEFAULT_COMP2CHAR|;
    }

    /** Build the alphabet of a text: count each comp value, then turn the counts
        into an exclusive prefix sum in place. Every symbol's comp value must index
        `C`, which has `|comp2char| + 1` entries. */
    constructor FromSequence(sequence: seq<byte>, char2comp: seq<byte>, comp2char: seq<byte>)
      requires |char2comp| == MAX_SIGMA
      requires forall i :: 0 <= i < |sequence| ==> char2comp[sequence[i]] <= |comp2char|
      ensures Valid() && fresh(C)
      ensures this.char2comp == char2comp && this.comp2char == comp2char
      ensures forall i :: 0 <= i < C.Length ==> C[i] == CountBelow(sequence, char2comp, i)
    {
      var c := new nat[|comp2char| + 1](_ => 0);
      if |sequence| != 0 {
        CharacterCounts(sequence, char2comp, c);
        CountBelowZero(sequence, char2comp);
        var i, sum := 0, 0;
        while i < c.Length
          invariant 0 <= i <= c.Length
          invariant sum == CountBelow(sequence, char2comp, i)
          invariant forall j :: 0 <= j < i ==> c[j] == CountBelow(sequence, char2comp, j)
          invariant forall j :: i <= j < c.Length ==> c[j] == Occurrences(sequence, char2comp, j)
        {
          CountBelowStep(sequence, char2comp, i);
          var temp := c[i];
          c[i] := sum;
          sum := sum + temp;
          i := i + 1;
        }
      }
      this.char2comp := char2comp;
      this.comp2char := comp2char;
      C := c;
      sigma := |comp2char|;
    }

    /** Build the alphabet from precomputed per-comp-value counts. `C[i + 1]` is
        written for every `i < |counts|`, so `counts` may not be longer than
        `comp2char`; entries past `|counts|` keep their initial zero. The sums are
        64-bit and wrap. */
    constructor FromCounts(counts: seq<u64>, char2comp: seq<byte>, comp2char: seq<byte>)
      requires |char2comp| == MAX_SIGMA
      requires |counts| <= |comp2char|
      ensures Valid() && fresh(C)
      ensures this.char2comp == char2comp && this.comp2char == comp2char
      ensures forall i :: 0 <= i <= |counts| ==> C[i] == Sum(counts[..i]) % TWO_64
      ensures forall i :: |counts| < i < C.Length ==> C[i] == 0
    {
      var c := new nat[|comp2char| + 1](_ => 0);
      var i := 0;
      while i < |counts|
        invariant 0 <= i <= |counts|
        invariant forall j :: 0 <= j <= i ==> c[j] == Sum(counts[..j]) % TWO_64
        invariant forall j :: i < j < c.Length ==> c[j] == 0
      {
        assert counts[..i + 1][..i] == counts[..i];
        c[i + 1] := (c[i] + counts[i]) % TWO_64;
        i := i + 1;
      }
      this.char2comp := char2comp;
      this.comp2char := comp2char;
      C := c;
      sigma := |comp2char|;
    }
  }

  /** The sequence constructor's `C` holds the cumulative counts: `C[0] == 0`, `C`
      is non-decreasing, and `C[sigma]` is the text length when every comp value
      is below `sigma`. */
  lemma CumulativeCounts(s: seq<byte>, char2comp: seq<byte>, sigma: nat)
    requires |char2comp| == MAX_SIGMA
    requires forall i :: 0 <= i < |s| ==> char2comp[s[i]] < sigma
    ensures CountBelow(s, char2comp, 0) == 0
    ensures CountBelow(s, char2comp, sigma) == |s|
    ensures forall i, j :: 0 <= i <= j <= sigma ==> CountBelow(s, char2comp, i) <= CountBelow(s, char2comp, j)
  {
    CountBelowZero(s, char2comp);
    CountBelowTotal(s, char2comp, sigma);
    forall i, j | 0 <= i <= j <= sigma
      ensures CountBelow(s, char2comp, i) <= CountBelow(s, char2comp, j)
    {
      CountBelowMonotone(s, char2comp, i, j);
    }
  }
}
