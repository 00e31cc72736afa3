/**
 One's-complement arithmetic on 16-bit words: sums are taken modulo 0xFFFF, and a
 non-zero sum never becomes zero (sections 1 and 2 of RFC 1071).
 */
module OnesComplement {
  import opened Bytes

  /** The 16-bit value of a sum after all carries have been folded back in. */
  function Residue(s: nat): (r: uint16)
    ensures r == 0 <==> s == 0
  {
    if s <= 0xFFFF then s else Residue(s - 0xFFFF)
  }

  /** How many times 0xFFFF was taken out of `s`. */
  lemma {:induction false} ResidueQuotient(s: nat) returns (k: int)
    ensures k >= 0 && s == Residue(s) + 0xFFFF * k
  {
    if s <= 0xFFFF {
      k := 0;
    } else {
      var rest := ResidueQuotient(s - 0xFFFF);
      k := rest + 1;
    }
  }

  lemma {:induction false} ResidueAddMultiple(s: nat, k: nat)
    requires s > 0
    ensures Residue(s + 0xFFFF * k) == Residue(s)
  {
    if k > 0 {
      ResidueAddMultiple(s, k - 1);
      assert s + 0xFFFF * k - 0xFFFF == s + 0xFFFF * (k - 1);
    }
  }

  /** A residue is determined by the sum modulo 0xFFFF and by whether the sum is zero. */
  lemma ResidueUnique(a: nat, b: nat, k: int)
    requires a - b == 0xFFFF * k
    requires a == 0 <==> b == 0
    ensures Residue(a) == Residue(b)
  {
    if a > 0 {
      if k >= 0 {
        ResidueAddMultiple(b, k);
      } else {
        ResidueAddMultiple(a, -k);
      }
    }
  }

  /** Partial sums may be folded early. */
  lemma ResidueAbsorbs(a: nat, b: nat)
    ensures Residue(Residue(a) + b) == Residue(a + b)
  {
    var k := ResidueQuotient(a);
    ResidueUnique(a + b, Residue(a) + b, k);
  }

  /** One turn of the folding loop keeps the residue. */
  lemma FoldKeepsResidue(s: nat)
    ensures Residue(s % 0x1_0000 + s / 0x1_0000) == Residue(s)
  {
    ResidueUnique(s, s % 0x1_0000 + s / 0x1_0000, s / 0x1_0000);
  }

  /** Adding two words with the carry brought round to the low end. */
  function EndAroundAdd(x: uint16, y: uint16): uint16 {
    if x + y > 0xFFFF then x + y - 0xFFFF else x + y
  }

  lemma EndAroundAddIsResidue(x: uint16, y: uint16)
    ensures EndAroundAdd(x, y) == Residue(x + y)
  {
  }

  /** A residue and its complement add up to a sum that verifies. */
  lemma ComplementCancels(s: nat)
    ensures Residue(s + (0xFFFF - Residue(s))) == 0xFFFF
  {
    var k := ResidueQuotient(s);
    ResidueAddMultiple(0xFFFF, k);
  }
}
