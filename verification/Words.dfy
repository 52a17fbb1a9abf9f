/**
  Machine words shared by every component: 8-bit and 16-bit unsigned values and the
  little-endian split the firmware's LO_UINT16, HI_UINT16 and BUILD_UINT16 macros perform.
 */
module Words {
  type byte = x: int | 0 <= x < 0x100
  type word = x: int | 0 <= x < 0x1_0000

  function Lo(w: word): byte { w % 0x100 }

  function Hi(w: word): byte { w / 0x100 }

  function BuildWord(lo: byte, hi: byte): word { lo + 0x100 * hi }

  // A 16-bit value survives being split into two bytes and rebuilt.
  lemma BuildOfSplit(w: word)
    ensures BuildWord(Lo(w), Hi(w)) == w
  {
  }

  // 16-bit addition, and two of them in a row.
  function Add16(a: word, n: nat): word { (a + n) % 0x1_0000 }

  lemma Add16Twice(a: word, m: nat, n: nat)
    ensures Add16(Add16(a, m), n) == Add16(a, m + n)
  {
  }

  datatype Option<+T> = None | Some(value: T)
}
