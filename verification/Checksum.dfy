/** The Internet checksum (internal/ip/checksum.go). */
module Checksum {
  import opened Bytes
  import opened OnesComplement
  import opened IPAddress

  /** The plain sum of the big-endian words of `data`, an odd last byte being a high byte. */
  function WordSum(data: bytes): nat {
    if |data| == 0 then 0
    else if |data| == 1 then data[0] as int * 0x100
    else Get16(data, 0) + WordSum(data[2..])
  }

  /** What the code returns for a sum held in a uint32 accumulator. */
  function Finish(sum: nat): uint16 {
    0xFFFF - Residue(Wrap32(sum))
  }

  function ChecksumOf(data: bytes): uint16 {
    Finish(WordSum(data))
  }

  predicate Verifies(data: bytes) {
    ChecksumOf(data) == 0
  }

  /** The shared folding loop; it turns at most twice and computes the residue. */
  method Fold(start: uint32) returns (r: uint16, ghost passes: nat)
    ensures r == Residue(start)
    ensures passes <= 2
  {
    var sum: uint32 := start;
    passes := 0;
    while sum > 0xFFFF
      invariant Residue(sum) == Residue(start)
      invariant passes <= 2
      invariant passes == 1 ==> sum <= 0x1_FFFE
      invariant passes == 2 ==> sum <= 0xFFFF
      decreases sum
    {
      FoldKeepsResidue(sum);
      sum := sum % 0x1_0000 + sum / 0x1_0000;
      passes := passes + 1;
    }
    r := sum;
  }

  /** The accumulating loop, with the wrap-around of a uint32. */
  method Accumulate(start: uint32, data: bytes) returns (sum: uint32)
    ensures sum == Wrap32(start + WordSum(data))
  {
    sum := start;
    var length := |data|;
    var i := 0;
    while i < length - 1
      invariant 0 <= i <= length && i % 2 == 0
      invariant Wrap32(sum + WordSum(data[i..])) == Wrap32(start + WordSum(data))
    {
      assert data[i..][2..] == data[i + 2..];
      WrapOnce(sum + Get16(data, i), WordSum(data[i + 2..]));
      sum := Wrap32(sum + Get16(data, i));
      i := i + 2;
    }
    if length % 2 != 0 {
      assert data[i..] == [data[length - 1]];
      sum := Wrap32(sum + data[length - 1] as int * 0x100);
    } else {
      assert data[i..] == [];
    }
  }

  lemma WrapOnce(a: nat, b: nat)
    ensures Wrap32(Wrap32(a) + b) == Wrap32(a + b)
  {
  }

  method Checksum(data: bytes) returns (c: uint16)
    ensures c == ChecksumOf(data)
  {
    var sum := Accumulate(0, data);
    var folded, _ := Fold(sum);
    c := 0xFFFF - folded;
  }

  method ICMPChecksum(icmpMsg: bytes) returns (c: uint16)
    ensures c == ChecksumOf(icmpMsg)
  {
    c := Checksum(icmpMsg);
  }

  /** The pseudo-header's words: both addresses if both are IPv4, the protocol, the segment length. */
  function PseudoSum(src: bytes, dst: bytes, segmentLen: nat): nat {
    (match (To4(src), To4(dst))
     case (Some(s), Some(d)) => Get16(s, 0) as int + Get16(s, 2) as int + Get16(d, 0) as int + Get16(d, 2) as int
     case _ => 0)
    + PROTO_TCP + Wrap32(segmentLen) as int
  }

  function TCPChecksumOf(src: bytes, dst: bytes, segment: bytes): uint16 {
    Finish(PseudoSum(src, dst, |segment|) + WordSum(segment))
  }

  method TCPChecksum(src: bytes, dst: bytes, segment: bytes) returns (c: uint16)
    ensures c == TCPChecksumOf(src, dst, segment)
  {
    var src4, dst4 := To4(src), To4(dst);
    var sum: uint32 := 0;
    if src4.Some? && dst4.Some? {
      sum := sum + Get16(src4.value, 0);
      sum := sum + Get16(src4.value, 2);
      sum := sum + Get16(dst4.value, 0);
      sum := sum + Get16(dst4.value, 2);
    }
    sum := sum + PROTO_TCP;
    assert sum + Wrap32(|segment|) == PseudoSum(src, dst, |segment|);
    WrapOnce(sum + Wrap32(|segment|), WordSum(segment));
    sum := Wrap32(sum + Wrap32(|segment|));
    sum := Accumulate(sum, segment);
    var folded, _ := Fold(sum);
    c := 0xFFFF - folded;
  }

  method VerifyChecksum(data: bytes) returns (ok: bool)
    ensures ok <==> Verifies(data)
  {
    var c := Checksum(data);
    ok := c == 0;
  }

  /** The sum of both complements, folded. */
  function CombineOf(a: uint16, b: uint16): uint16 {
    Finish((0xFFFF - a) + (0xFFFF - b))
  }

  method ChecksumCombine(a: uint16, b: uint16) returns (c: uint16)
    ensures c == CombineOf(a, b)
  {
    var folded, _ := Fold((0xFFFF - a) + (0xFFFF - b));
    c := 0xFFFF - folded;
  }

  // ---------------------------------------------------------------------------
  // What the accumulator can hold
  // ---------------------------------------------------------------------------

  lemma {:induction false} WordSumBound(data: bytes)
    ensures WordSum(data) <= (|data| + 1) / 2 * 0xFFFF
  {
    if |data| >= 2 {
      WordSumBound(data[2..]);
    }
  }

  /** 65537 words of 0xFFFF are exactly 2^32 - 1: up to 131074 bytes nothing is lost. */
  lemma NoOverflow(data: bytes)
    requires |data| <= 131074
    ensures WordSum(data) < 0x1_0000_0000
    ensures ChecksumOf(data) == 0xFFFF - Residue(WordSum(data))
  {
    WordSumBound(data);
  }

  lemma {:induction false} WordSumOfOnes(n: nat)
    ensures WordSum(seq(2 * n, i => 0xFF)) == n * 0xFFFF
  {
    if n > 0 {
      var ones: bytes := seq(2 * n, i => 0xFF);
      assert ones[2..] == seq(2 * (n - 1), i => 0xFF);
      WordSumOfOnes(n - 1);
    }
  }

  /** One word more and the accumulator can wrap: the result is then wrong. */
  lemma OverflowLosesCarry()
    ensures exists data: bytes :: |data| == 131076 && ChecksumOf(data) != 0xFFFF - Residue(WordSum(data))
  {
    var data: bytes := seq(2 * 65538, i => 0xFF);
    WordSumOfOnes(65538);
    ResidueAddMultiple(0xFFFF, 65537);
    assert WordSum(data) % 0x1_0000_0000 == 65534;
    assert |data| == 131076 && ChecksumOf(data) != 0xFFFF - Residue(WordSum(data));
  }

  /** 2^32 is 1 modulo 0xFFFF, so dropping 2^32 fewer than 0xFFFF times shows in the residue. */
  lemma LostCarriesShow(w: nat, lost: nat)
    requires 0 < lost < 0xFFFF && w > 0
    ensures Residue(w + lost * 0x1_0000_0000) != Residue(w)
  {
    var a := ResidueQuotient(w + lost * 0x1_0000_0000);
    var b := ResidueQuotient(w);
    NotAMultiple(lost, a - b - 0x1_0001 * lost);
  }

  lemma NotAMultiple(lost: nat, m: int)
    requires 0 < lost < 0xFFFF
    ensures lost != 0xFFFF * m
  {
  }

  /** The checksum is right exactly when the true sum fits in 32 bits (for sums below 65535 * 2^32). */
  lemma ExactIffSumFits(data: bytes)
    requires WordSum(data) < 0xFFFF * 0x1_0000_0000
    ensures ChecksumOf(data) == 0xFFFF - Residue(WordSum(data)) <==> WordSum(data) < 0x1_0000_0000
  {
    var w := WordSum(data);
    var lost, kept := w / 0x1_0000_0000, w % 0x1_0000_0000;
    if lost > 0 && kept > 0 {
      LostCarriesShow(kept, lost);
    }
  }

  // ---------------------------------------------------------------------------
  // The meaning of the checksum: the complement of RFC 1071's one's-complement sum
  // ---------------------------------------------------------------------------

  /** The words added one at a time with end-around carry. */
  function OnesSum(data: bytes): uint16 {
    if |data| == 0 then 0
    else if |data| == 1 then data[0] as int * 0x100
    else EndAroundAdd(OnesSum(data[2..]), Get16(data, 0))
  }

  lemma {:induction false} OnesSumIsResidue(data: bytes)
    ensures OnesSum(data) == Residue(WordSum(data))
  {
    if |data| >= 2 {
      OnesSumIsResidue(data[2..]);
      EndAroundAddIsResidue(OnesSum(data[2..]), Get16(data, 0));
      ResidueAbsorbs(WordSum(data[2..]), Get16(data, 0));
    }
  }

  lemma ChecksumMeaning(data: bytes)
    requires |data| <= 131074
    ensures ChecksumOf(data) == 0xFFFF - OnesSum(data)
  {
    NoOverflow(data);
    OnesSumIsResidue(data);
  }

  /** The example of section 3 of RFC 1071, and an odd length. */
  lemma WorkedExample()
    ensures OnesSum([0x00, 0x01, 0xf2, 0x03, 0xf4, 0xf5, 0xf6, 0xf7]) == 0xddf2
    ensures ChecksumOf([0x00, 0x01, 0xf2, 0x03, 0xf4, 0xf5, 0xf6, 0xf7]) == 0x220d
    ensures ChecksumOf([0x12]) == 0xedff
  {
    var d := [0x00, 0x01, 0xf2, 0x03, 0xf4, 0xf5, 0xf6, 0xf7];
    assert d[2..] == [0xf2, 0x03, 0xf4, 0xf5, 0xf6, 0xf7];
    assert d[2..][2..] == [0xf4, 0xf5, 0xf6, 0xf7];
    assert d[2..][2..][2..] == [0xf6, 0xf7];
    assert d[2..][2..][2..][2..] == [];
    assert OnesSum([0xf6, 0xf7]) == 0xf6f7;
    assert OnesSum(d[2..][2..]) == 0xebed;
    assert OnesSum(d[2..]) == 0xddf1;
    ChecksumMeaning(d);
    ChecksumMeaning([0x12]);
  }

  /** Data of odd length is summed as if a zero byte followed. */
  lemma {:induction false} OddIsPadded(data: bytes)
    requires |data| % 2 == 1
    ensures WordSum(data + [0]) == WordSum(data) && ChecksumOf(data + [0]) == ChecksumOf(data)
  {
    if |data| > 1 {
      assert (data + [0])[2..] == data[2..] + [0];
      OddIsPadded(data[2..]);
    } else {
      assert (data + [0])[2..] == [];
    }
  }

  // ---------------------------------------------------------------------------
  // ChecksumCombine
  // ---------------------------------------------------------------------------

  lemma {:induction false} WordSumConcat(x: bytes, y: bytes)
    requires |x| % 2 == 0
    ensures WordSum(x + y) == WordSum(x) + WordSum(y)
  {
    if x == [] {
      assert x + y == y;
    } else {
      assert (x + y)[2..] == x[2..] + y;
      WordSumConcat(x[2..], y);
    }
  }

  lemma FinishIsComplement(sum: nat)
    requires sum < 0x1_0000_0000
    ensures Finish(sum) == 0xFFFF - Residue(sum)
  {
  }

  lemma ResidueOfResidues(a: nat, b: nat)
    ensures Residue(Residue(a) + Residue(b)) == Residue(a + b)
  {
    ResidueAbsorbs(a, Residue(b));
    ResidueAbsorbs(b, a);
  }

  lemma CombineIsHomomorphism(x: bytes, y: bytes)
    requires |x| % 2 == 0 && |x| + |y| <= 131074
    ensures CombineOf(ChecksumOf(x), ChecksumOf(y)) == ChecksumOf(x + y)
  {
    hide WordSum, Residue, ChecksumOf, CombineOf;
    WordSumConcat(x, y);
    NoOverflow(x);
    NoOverflow(y);
    NoOverflow(x + y);
    CombineResidues(WordSum(x), WordSum(y));
  }

  lemma CombineResidues(a: nat, b: nat)
    ensures CombineOf(0xFFFF - Residue(a), 0xFFFF - Residue(b)) == 0xFFFF - Residue(a + b)
  {
    hide Residue, Finish;
    FinishIsComplement(Residue(a) + Residue(b));
    ResidueOfResidues(a, b);
  }

  lemma CombineIsAbelian(a: uint16, b: uint16, c: uint16)
    ensures CombineOf(a, b) == CombineOf(b, a)
    ensures CombineOf(CombineOf(a, b), c) == CombineOf(a, CombineOf(b, c))
  {
    CombineTwice(a, b, c);
    CombineTwice(b, c, a);
  }

  lemma CombineTwice(a: uint16, b: uint16, c: uint16)
    ensures CombineOf(CombineOf(a, b), c) == 0xFFFF - Residue((0xFFFF - a) + (0xFFFF - b) + (0xFFFF - c))
  {
    var s := (0xFFFF - a) + (0xFFFF - b);
    FinishIsComplement(s);
    FinishIsComplement(Residue(s) + (0xFFFF - c));
    ResidueAbsorbs(s, 0xFFFF - c);
  }

  // ---------------------------------------------------------------------------
  // The pseudo-header (section 3.1 of RFC 9293)
  // ---------------------------------------------------------------------------

  /** Its addresses, which the code leaves out unless both are IPv4. */
  function PseudoAddresses(src: bytes, dst: bytes): (b: bytes)
    ensures |b| % 4 == 0 && |b| <= 8
  {
    if To4(src).Some? && To4(dst).Some? then To4(src).value + To4(dst).value else []
  }

  lemma WordsOf4(b: bytes)
    requires |b| == 4
    ensures WordSum(b) == Get16(b, 0) as int + Get16(b, 2)
  {
    var rest := b[2..];
    assert rest[2..] == [] && Get16(rest, 0) == Get16(b, 2);
    assert WordSum(rest) == Get16(rest, 0) + WordSum(rest[2..]);
  }

  lemma PseudoWords(src: bytes, dst: bytes, n: uint32)
    ensures WordSum(PseudoAddresses(src, dst) + [0, 6] + Put32(n))
         == PseudoSum(src, dst, 0) + n / 0x1_0000 + n % 0x1_0000
  {
    hide Get16, WordSum;
    WordsOf4(Put32(n));
    WordsOf2(0, 6);
    Words32(n);
    var a := PseudoAddresses(src, dst);
    WordSumConcat(a, [0, 6]);
    WordSumConcat(a + [0, 6], Put32(n));
    if a != [] {
      WordSumConcat(To4(src).value, To4(dst).value);
      WordsOf4(To4(src).value);
      WordsOf4(To4(dst).value);
    }
    NoWords();
  }

  lemma NoWords()
    ensures WordSum([]) == 0
  {
  }

  lemma WordsOf2(a: byte, b: byte)
    ensures WordSum([a, b]) == a * 0x100 + b
  {
    assert [a, b][2..] == [];
  }

  lemma Words32(n: uint32)
    ensures Get16(Put32(n), 0) == n / 0x1_0000 && Get16(Put32(n), 2) == n % 0x1_0000
  {
    var b := Put32(n);
    assert b[0] == Hi(n / 0x1_0000) && b[1] == Lo(n / 0x1_0000);
    assert b[2] == Hi(n % 0x1_0000) && b[3] == Lo(n % 0x1_0000);
  }

  /** The TCP checksum is that of the segment behind its pseudo-header, with a length of four bytes. */
  lemma PseudoHeaderBytes(src: bytes, dst: bytes, segment: bytes)
    requires |segment| <= 131062
    ensures TCPChecksumOf(src, dst, segment)
         == ChecksumOf(PseudoAddresses(src, dst) + [0, 6] + Put32(|segment|) + segment)
  {
    hide WordSum, Residue, PseudoAddresses, Put32, Finish, PseudoSum;
    var pseudo := PseudoAddresses(src, dst) + [0, 6] + Put32(|segment|);
    PseudoWords(src, dst, |segment|);
    WordSumConcat(pseudo, segment);
    PseudoLength(src, dst, |segment|);
    WordSumBound(segment);
    var w := WordSum(segment);
    FinishIsComplement(PseudoSum(src, dst, |segment|) + w);
    FinishIsComplement(WordSum(pseudo) + w);
    ResidueUnique(PseudoSum(src, dst, |segment|) + w, WordSum(pseudo) + w, |segment| / 0x1_0000);
  }

  lemma PseudoLength(src: bytes, dst: bytes, n: nat)
    requires n <= 131062
    ensures PseudoSum(src, dst, n) == PseudoSum(src, dst, 0) + n
    ensures 0 < PseudoSum(src, dst, 0) <= 4 * 0xFFFF + 6
  {
  }

  /** Unless both addresses are IPv4 neither is summed, and it does not matter in which form they are. */
  lemma PseudoAddressForms(src: bytes, dst: bytes, segment: bytes)
    ensures |src| == |dst| == 4 ==> TCPChecksumOf(IPv4(src), IPv4(dst), segment) == TCPChecksumOf(src, dst, segment)
    ensures To4(src) == None || To4(dst) == None ==>
      (|segment| <= 131062 ==> TCPChecksumOf(src, dst, segment) == ChecksumOf([0, 6] + Put32(|segment|) + segment))
  {
    hide WordSum, Finish, Put32;
    if (To4(src) == None || To4(dst) == None) && |segment| <= 131062 {
      PseudoHeaderBytes(src, dst, segment);
      assert PseudoAddresses(src, dst) + [0, 6] == [0, 6];
    }
  }

  /** Between IPv4 addresses, and for a segment that an IPv4 packet can carry, it is the RFC's. */
  lemma PseudoHeaderOfRFC(src: bytes, dst: bytes, segment: bytes)
    requires |src| == |dst| == 4 && |segment| <= 0xFFFF
    ensures TCPChecksumOf(src, dst, segment) == ChecksumOf(src + dst + [0, 6] + Put16(|segment|) + segment)
  {
    hide WordSum, Residue;
    PseudoHeaderBytes(src, dst, segment);
    var n: uint16 := |segment|;
    var front := src + dst + [0, 6];
    ShortLength(n);
    assert front + Put32(n) + segment == front + ([0, 0] + Put16(n)) + segment;
    assert PseudoAddresses(src, dst) + [0, 6] == front;
    WordSumConcat(front, [0, 0] + Put16(n));
    WordSumConcat([0, 0], Put16(n));
    WordSumConcat(front + ([0, 0] + Put16(n)), segment);
    WordSumConcat(front, Put16(n));
    WordSumConcat(front + Put16(n), segment);
    WordsOf2(0, 0);
  }

  lemma ShortLength(n: uint16)
    ensures Put32(n) == [0, 0] + Put16(n)
  {
  }

  // ---------------------------------------------------------------------------
  // Byte order independence (section 2 (B) of RFC 1071)
  // ---------------------------------------------------------------------------

  function SwapWord(x: uint16): uint16 {
    x % 0x100 * 0x100 + x / 0x100
  }

  function SwapBytes(data: bytes): (r: bytes)
    requires |data| % 2 == 0
    ensures |r| == |data|
  {
    if data == [] then [] else [data[1], data[0]] + SwapBytes(data[2..])
  }

  lemma {:induction false} SwapScalesSum(data: bytes) returns (k: int)
    requires |data| % 2 == 0
    ensures 0x100 * WordSum(data) == WordSum(SwapBytes(data)) + 0xFFFF * k
  {
    if data == [] {
      k := 0;
    } else {
      assert SwapBytes(data)[2..] == SwapBytes(data[2..]);
      var rest := SwapScalesSum(data[2..]);
      k := rest + data[0];
    }
  }

  lemma {:induction false} SwapKeepsZero(data: bytes)
    requires |data| % 2 == 0
    ensures WordSum(SwapBytes(data)) == 0 <==> WordSum(data) == 0
  {
    if data != [] {
      assert SwapBytes(data)[2..] == SwapBytes(data[2..]);
      SwapKeepsZero(data[2..]);
    }
  }

  lemma ByteOrderIndependence(data: bytes)
    requires |data| % 2 == 0 && |data| <= 131074
    ensures ChecksumOf(SwapBytes(data)) == SwapWord(ChecksumOf(data))
  {
    hide Residue, WordSum, SwapBytes, SwapWord, ChecksumOf;
    NoOverflow(data);
    NoOverflow(SwapBytes(data));
    SwapResidue(data);
    SwapComplement(Residue(WordSum(data)));
  }

  lemma SwapResidue(data: bytes)
    requires |data| % 2 == 0
    ensures Residue(WordSum(SwapBytes(data))) == SwapWord(Residue(WordSum(data)))
  {
    hide WordSum, SwapBytes, Residue, SwapWord;
    var sum, swapped := WordSum(data), WordSum(SwapBytes(data));
    var r := Residue(sum);
    var k := SwapScalesSum(data);
    var q := ResidueQuotient(sum);
    SwapKeepsZero(data);
    SwapArithmetic(sum, swapped, r, q, k);
    ResidueUnique(swapped, SwapWord(r), 0x100 * q + r / 0x100 - k);
    ResidueOfWord(SwapWord(r));
  }

  /** Swapping a word multiplies it by 0x100 modulo 0xFFFF, as swapping all words does their sum. */
  lemma SwapArithmetic(sum: int, swapped: int, r: uint16, q: int, k: int)
    requires sum == r + 0xFFFF * q && 0x100 * sum == swapped + 0xFFFF * k
    ensures swapped - SwapWord(r) == 0xFFFF * (0x100 * q + r / 0x100 - k)
    ensures SwapWord(r) == 0 <==> r == 0
  {
    var hi, lo := r / 0x100, r % 0x100;
    assert r == 0x100 * hi + lo && SwapWord(r) == 0x100 * lo + hi;
    assert 0x100 * r == SwapWord(r) + 0xFFFF * hi;
  }

  lemma ResidueOfWord(x: uint16)
    ensures Residue(x) == x
  {
  }

  lemma SwapComplement(r: uint16)
    ensures SwapWord(0xFFFF - r) == 0xFFFF - SwapWord(r)
  {
  }

  // ---------------------------------------------------------------------------
  // Storing the checksum, and detecting a changed word
  // ---------------------------------------------------------------------------

  lemma {:induction false} WordSumPatch(data: bytes, p: nat, x: uint16)
    requires p % 2 == 0 && p + 2 <= |data|
    ensures WordSum(Patch16(data, p, x)) == WordSum(data) - Get16(data, p) + x
  {
    var patched := Patch16(data, p, x);
    if p == 0 {
      assert patched[2..] == data[2..];
    } else {
      assert patched[2..] == Patch16(data[2..], p - 2, x);
      WordSumPatch(data[2..], p - 2, x);
    }
  }

  /** A sum that starts from `base` (0, or a pseudo-header) and has a zeroed field at `p`. */
  lemma StoredSumVerifies(base: nat, zeroed: bytes, p: nat)
    requires p % 2 == 0 && p + 2 <= |zeroed| && Get16(zeroed, p) == 0
    requires base + (|zeroed| + 1) / 2 * 0xFFFF < 0x1_0000_0000
    ensures Finish(base + WordSum(Patch16(zeroed, p, Finish(base + WordSum(zeroed))))) == 0
  {
    var s := base + WordSum(zeroed);
    var stored := Patch16(zeroed, p, Finish(s));
    WordSumBound(zeroed);
    WordSumPatch(zeroed, p, Finish(s));
    WordSumBound(stored);
    FinishIsComplement(s);
    FinishIsComplement(base + WordSum(stored));
    ComplementCancels(s);
  }

  lemma StoredChecksumVerifies(data: bytes, p: nat)
    requires p % 2 == 0 && p + 2 <= |data| <= 131074
    ensures Verifies(Patch16(data, p, ChecksumOf(Patch16(data, p, 0))))
  {
    var zeroed := Patch16(data, p, 0);
    StoredSumVerifies(0, zeroed, p);
    assert Patch16(zeroed, p, ChecksumOf(zeroed)) == Patch16(data, p, ChecksumOf(zeroed));
  }

  /** Sums that verify differ by one word only if that word went between 0x0000 and 0xFFFF. */
  lemma ChangedSum(s: nat, w: uint16, x: uint16)
    requires w <= s && w != x && Residue(s) == 0xFFFF
    ensures Residue(s - w + x) == 0xFFFF
       <==> ((w == 0 && x == 0xFFFF) || (w == 0xFFFF && x == 0 && s != 0xFFFF))
  {
    var k := ResidueQuotient(s);
    var m := ResidueQuotient(s - w + x);
    if Residue(s - w + x) == 0xFFFF {
      assert x - w == 0xFFFF * (m - k);
    }
    if w == 0 && x == 0xFFFF {
      ResidueAddMultiple(s, 1);
    }
    if w == 0xFFFF && x == 0 && s != 0xFFFF {
      ResidueAddMultiple(s - 0xFFFF, 1);
    }
  }

  lemma WordInSum(data: bytes, p: nat)
    requires p % 2 == 0 && p + 2 <= |data|
    ensures Get16(data, p) <= WordSum(data)
  {
    hide WordSum;
    WordSumPatch(data, p, 0);
  }

  /** Changing one aligned word of data that verifies is detected, with that one exception. */
  lemma ChangedWordDetected(data: bytes, p: nat, x: uint16)
    requires p % 2 == 0 && p + 2 <= |data| <= 131074
    requires Verifies(data) && x != Get16(data, p)
    ensures Verifies(Patch16(data, p, x))
       <==> ((Get16(data, p) == 0 && x == 0xFFFF)
             || (Get16(data, p) == 0xFFFF && x == 0 && WordSum(data) != 0xFFFF))
  {
    hide WordSum, Residue, ChecksumOf, Patch16;
    NoOverflow(data);
    NoOverflow(Patch16(data, p, x));
    WordSumPatch(data, p, x);
    WordInSum(data, p);
    ChangedSum(WordSum(data), Get16(data, p), x);
  }
}
