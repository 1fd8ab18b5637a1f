/** checksum(): the Internet checksum of RFC 1071, computed with a C `int`
    accumulator over 16-bit words and an optional trailing byte. */
module Checksum {
  import opened Bytes

  /** The C `int` the sum is kept in. */
  type int32 = x: int | -0x8000_0000 <= x < 0x8000_0000

  /** Largest word count whose sum (plus a trailing byte) still fits in an
      `int`: 0xFFFF * 0x8000 + 0xFF < 2^31. */
  const MAX_WORDS := 0x8000

  /** Sum of the words, as the accumulator holds it after the word loop. */
  function WordSum(words: seq<u16>): nat
    decreases |words|
  {
    if words == [] then 0 else WordSum(words[..|words| - 1]) + words[|words| - 1]
  }

  function TailValue(tail: Option<byte>): nat {
    if tail.Some? then tail.value else 0
  }

  /** The accumulator before folding: every word plus the odd byte. */
  function OnesSum(words: seq<u16>, tail: Option<byte>): nat {
    WordSum(words) + TailValue(tail)
  }

  /** `sum = (sum >> 16) + (sum & 0xFFFF); sum += (sum >> 16);` for a
      non-negative sum. The result can still exceed 16 bits. */
  function FoldCarries(s: nat): nat {
    var s1 := s / 0x1_0000 + s % 0x1_0000;
    s1 + s1 / 0x1_0000
  }

  /** `(uint16_t) ~sum` for a non-negative sum: the low 16 bits, complemented. */
  function Complement16(s: nat): u16 {
    0xFFFF - s % 0x1_0000
  }

  /** What checksum() returns. */
  function InternetChecksum(words: seq<u16>, tail: Option<byte>): u16 {
    Complement16(FoldCarries(OnesSum(words, tail)))
  }

  lemma {:induction false} WordSumBound(words: seq<u16>)
    ensures WordSum(words) <= 0xFFFF * |words|
    decreases |words|
  {
    if words != [] {
      WordSumBound(words[..|words| - 1]);
    }
  }

  lemma {:induction false} AddMultipleMod(a: nat, q: nat)
    ensures (a + 0xFFFF * q) % 0xFFFF == a % 0xFFFF
    decreases q
  {
    if q > 0 {
      AddMultipleMod(a, q - 1);
      assert a + 0xFFFF * q == (a + 0xFFFF * (q - 1)) + 0xFFFF;
    }
  }

  /** Folding the carries twice is the 16-bit ones'-complement sum: the low
      16 bits agree with the sum modulo 0xFFFF (65536 being 1 modulo 0xFFFF,
      each carry is added back in), and they are zero only for a zero sum. */
  lemma FoldIsOnesComplement(s: nat)
    requires s < 0x8000_0000
    ensures FoldCarries(s) % 0x1_0000 % 0xFFFF == s % 0xFFFF
    ensures FoldCarries(s) % 0x1_0000 == 0 <==> s == 0
    ensures FoldCarries(s) % 0x1_0000 <= s
  {
    var q := s / 0x1_0000;
    var r := s % 0x1_0000;
    var s1 := q + r;
    assert s == s1 + 0xFFFF * q;
    AddMultipleMod(s1, q);
    if s1 >= 0x1_0000 {
      assert s1 / 0x1_0000 == 1;
      assert FoldCarries(s) % 0x1_0000 == s1 - 0xFFFF;
      AddMultipleMod(s1 - 0xFFFF, 1);
    } else {
      assert FoldCarries(s) == s1;
    }
  }

  /** Complementing a 16-bit value congruent to `s` modulo 0xFFFF (and no
      larger than `s`) gives a value that completes `s` to a multiple of 0xFFFF. */
  lemma ComplementCompletes(f: nat, s: nat)
    requires f <= s && f <= 0xFFFF && f % 0xFFFF == s % 0xFFFF
    ensures (0xFFFF - f + s) % 0xFFFF == 0
  {
    var m := s / 0xFFFF - f / 0xFFFF;
    assert s == 0xFFFF * (s / 0xFFFF) + s % 0xFFFF;
    assert f == 0xFFFF * (f / 0xFFFF) + f % 0xFFFF;
    assert 0xFFFF - f + s == 0xFFFF * (m + 1);
    AddMultipleMod(0, m + 1);
  }

  /** What the checksum means: added to the data's sum it gives 0 modulo
      0xFFFF, and of the two candidates 0 and 0xFFFF it is 0xFFFF exactly
      when the data sums to zero. Together these determine the result. */
  lemma ChecksumComplementsSum(words: seq<u16>, tail: Option<byte>)
    requires |words| <= MAX_WORDS
    ensures (InternetChecksum(words, tail) + OnesSum(words, tail)) % 0xFFFF == 0
    ensures InternetChecksum(words, tail) == 0xFFFF <==> OnesSum(words, tail) == 0
  {
    WordSumBound(words);
    var s := OnesSum(words, tail);
    var f := FoldCarries(s) % 0x1_0000;
    FoldIsOnesComplement(s);
    assert InternetChecksum(words, tail) == 0xFFFF - f;
    ComplementCompletes(f, s);
  }

  /** An odd trailing byte counts as a last word whose other byte is zero. */
  lemma TailIsPaddedWord(words: seq<u16>, b: byte)
    ensures InternetChecksum(words, Some(b)) == InternetChecksum(words + [b], None)
  {
    assert (words + [b])[..|words|] == words;
  }

  /** A value below 0xFFFF that a multiple of 0xFFFF completes to a multiple
      of 0xFFFF is 0. */
  lemma MultipleBelowModulus(v: nat, s: nat)
    requires v < 0xFFFF && s % 0xFFFF == 0 && (v + s) % 0xFFFF == 0
    ensures v == 0
  {
    var q := s / 0xFFFF;
    assert s == 0xFFFF * q;
    AddMultipleMod(v, q);
  }

  /** The receiver's check (RFC 1071, section 1): once the checksum is
      appended to the data as one more word, the checksum of the whole is 0. */
  lemma ChecksumVerifies(words: seq<u16>)
    requires |words| < MAX_WORDS
    ensures InternetChecksum(words + [InternetChecksum(words, None)], None) == 0
  {
    var c := InternetChecksum(words, None);
    var all := words + [c];
    assert all[..|words|] == words;
    ChecksumComplementsSum(words, None);
    ChecksumComplementsSum(all, None);
    var sum := OnesSum(words, None);
    var s := OnesSum(all, None);
    assert s == sum + c;
    // The data's sum and its checksum are never both zero, and they add up
    // to a multiple of 0xFFFF.
    assert s != 0 && s % 0xFFFF == 0;
    var c' := InternetChecksum(all, None);
    assert c' < 0xFFFF && (c' + s) % 0xFFFF == 0;
    MultipleBelowModulus(c', s);
  }

  /** checksum(addr, len) with `len` = 2 * |words| (+ 1 with a trailing
      byte): adds the words while more than one byte is left, adds the odd
      byte, folds the carries twice and returns the complement. */
  method Checksum(words: seq<u16>, tail: Option<byte>) returns (answer: u16)
    requires |words| <= MAX_WORDS
    ensures answer == InternetChecksum(words, tail)
    ensures (answer + OnesSum(words, tail)) % 0xFFFF == 0
    ensures answer == 0xFFFF <==> OnesSum(words, tail) == 0
  {
    var len := 2 * |words| + (if tail.Some? then 1 else 0);
    var nleft := len;
    var sum: int32 := 0;
    var w := 0;
    answer := 0;
    WordSumBound(words);
    while nleft > 1
      invariant 0 <= w <= |words|
      invariant nleft == len - 2 * w
      invariant sum == WordSum(words[..w])
    {
      assert words[..w + 1][..w] == words[..w];
      WordSumBound(words[..w + 1]);
      sum := sum + words[w];
      w := w + 1;
      nleft := nleft - 2;
    }
    assert words[..w] == words;
    if nleft == 1 {
      answer := tail.value;
      sum := sum + answer;
    }
    assert 0 <= sum == OnesSum(words, tail);
    ghost var total: nat := sum;
    sum := sum / 0x1_0000 + sum % 0x1_0000;
    assert 0 <= sum < 0x2_0000;
    sum := sum + sum / 0x1_0000;
    assert sum == FoldCarries(total);
    answer := 0xFFFF - sum % 0x1_0000;
    ChecksumComplementsSum(words, tail);
  }
}
