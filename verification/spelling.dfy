// Byte strings written as text, so that what goes over the wire can be read.
module Spelling {
  import opened Bytes

  predicate IsAscii(s: string) {
    forall i :: 0 <= i < |s| ==> s[i] as int < 128
  }

  function Ascii(s: string): (b: bytes)
    requires IsAscii(s)
    ensures |b| == |s| && forall i :: 0 <= i < |s| ==> b[i] as int == s[i] as int
  {
    seq(|s|, i requires 0 <= i < |s| && IsAscii(s) => s[i] as int as byte)
  }

  // `word`, each letter in upper or lower case; `upper` is all upper case.
  predicate Spells(word: bytes, upper: bytes) {
    && |word| == |upper|
    && forall i :: 0 <= i < |word| ==>
         word[i] == upper[i] || (0x41 <= upper[i] <= 0x5A && word[i] as int == upper[i] as int + 0x20)
  }

  predicate NoLowerCase(s: bytes) {
    forall i :: 0 <= i < |s| ==> !(0x61 <= s[i] <= 0x7A)
  }

  // Comparing without regard to case, against an upper-case word.
  lemma EqIgnoreCaseExactly(word: bytes, upper: bytes)
    requires NoLowerCase(upper)
    ensures EqIgnoreCase(word, upper) <==> Spells(word, upper)
  {
  }
}
