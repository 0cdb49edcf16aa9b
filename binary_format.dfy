/**
 * The byte-level primitives of the binary dictionary format that the
 * terminal-attribute decoder is built on: the flag masks it tests, the width
 * of the shortcut-list length header, and the three readers it calls (read a
 * flags byte, read a code point, take a weight out of a flags byte).
 *
 * Each reader takes the dictionary buffer and a cursor and returns the value
 * read together with the advanced cursor, just as the format's readers take
 * the cursor by pointer and move it.  The buffer is never written.
 */
module BinaryFormat {

  /** One byte of the dictionary buffer (a `uint8_t`), by its value. */
  newtype Byte = b: int | 0 <= b < 0x100

  // Capability bits of a node's flags byte, as masks.
  const FlagHasShortcutTargets: bv8 := 0x08
  const FlagIsNotAWord: bv8 := 0x02
  const FlagIsBlacklisted: bv8 := 0x01

  // Bits of the flags byte that heads every attribute (shortcut) entry.
  const FlagAttributeHasNext: bv8 := 0x80

  /** Width in bytes of the length header in front of a node's shortcut list. */
  const ShortcutListSizeSize: int := 2

  /** The value the code point reader returns for the end-of-word sentinel. */
  const NotACodePoint: int := -1

  /** The fixed bound on the number of code points decoded for one word. */
  const MaxWordLength: nat := 48

  /** Bytes below this value do not stand for a one-byte code point. */
  const MinimalOneByteCharacterValue: Byte := 0x20

  /** The byte that ends the code points of a word. */
  const CharacterArrayTerminator: Byte := 0x1F

  /** `flags & mask`: the bits of a flags byte that a mask selects. */
  function Masked(flags: Byte, mask: bv8): bv8
  {
    (flags as bv8) & mask
  }

  // The tests the decoder makes on a flags byte, written on the byte's value;
  // the lemmas below show each is the test of the corresponding mask.

  /** The node has a shortcut list (`FlagHasShortcutTargets`, bit 3). */
  predicate HasShortcutTargets(flags: Byte)
  {
    flags / 0x08 % 2 == 1
  }

  /** The node is blacklisted (`FlagIsBlacklisted`, bit 0). */
  predicate IsBlacklisted(flags: Byte)
  {
    flags % 2 == 1
  }

  /** The node is not a word (`FlagIsNotAWord`, bit 1). */
  predicate IsNotAWord(flags: Byte)
  {
    flags / 0x02 % 2 == 1
  }

  /** Another attribute entry follows this one (`FlagAttributeHasNext`, bit 7). */
  predicate AttributeHasNext(flags: Byte)
  {
    0x80 <= flags
  }

  /** The weight carried in the low four bits of an attribute flags byte. */
  function GetAttributeFrequencyFromFlags(flags: Byte): (w: int)
    ensures 0 <= w <= 15
    ensures w == 0 <==> flags % 0x10 == 0
  {
    flags as int % 0x10
  }

  // Each test on a flags byte is the test of the corresponding mask.

  lemma HasShortcutTargetsMask(flags: Byte)
    ensures HasShortcutTargets(flags) <==> Masked(flags, FlagHasShortcutTargets) != 0
  {
  }

  lemma IsBlacklistedMask(flags: Byte)
    ensures IsBlacklisted(flags) <==> Masked(flags, FlagIsBlacklisted) != 0
  {
  }

  lemma IsNotAWordMask(flags: Byte)
    ensures IsNotAWord(flags) <==> Masked(flags, FlagIsNotAWord) != 0
  {
  }

  lemma AttributeHasNextMask(flags: Byte)
    ensures AttributeHasNext(flags) <==> Masked(flags, FlagAttributeHasNext) != 0
  {
  }

  /** A value read from the buffer and the cursor just past it. */
  datatype Read<T> = Read(value: T, next: int)

  predicate FlagsReadable(dict: seq<Byte>, pos: int)
  {
    0 <= pos < |dict|
  }

  /** Reads the flags byte at `pos`; the cursor moves past it. */
  function GetFlagsAndForwardPointer(dict: seq<Byte>, pos: int): (r: Read<Byte>)
    requires FlagsReadable(dict, pos)
    ensures r.next == pos + 1 <= |dict|
  {
    Read(dict[pos], pos + 1)
  }

  /** A byte that opens a three-byte code point. */
  predicate IsThreeByteLead(b: Byte)
  {
    b < MinimalOneByteCharacterValue && b != CharacterArrayTerminator
  }

  predicate CodePointReadable(dict: seq<Byte>, pos: int)
  {
    0 <= pos < |dict| && (IsThreeByteLead(dict[pos]) ==> pos + 3 <= |dict|)
  }

  /**
   * Reads one code point at `pos`: a byte of at least 0x20 is the code point
   * itself, the terminator byte gives `NotACodePoint`, and any other byte is
   * the high byte of a big-endian three-byte code point.
   */
  function GetCodePointAndForwardPointer(dict: seq<Byte>, pos: int): (r: Read<int>)
    requires CodePointReadable(dict, pos)
    ensures pos < r.next <= |dict|
  {
    var b := dict[pos];
    if b < MinimalOneByteCharacterValue then
      if b == CharacterArrayTerminator then Read(NotACodePoint, pos + 1)
      else Read(b as int * 0x1_0000 + dict[pos + 1] as int * 0x100 + dict[pos + 2] as int, pos + 3)
    else
      Read(b as int, pos + 1)
  }

  /**
   * The reader yields the sentinel exactly on the terminator byte, and then
   * consumes that one byte; any other read yields a non-negative code point.
   */
  lemma CodePointSentinel(dict: seq<Byte>, pos: int)
    requires CodePointReadable(dict, pos)
    ensures var r := GetCodePointAndForwardPointer(dict, pos);
      && (r.value == NotACodePoint <==> dict[pos] == CharacterArrayTerminator)
      && (r.value == NotACodePoint ==> r.next == pos + 1)
      && (r.value != NotACodePoint ==> 0 <= r.value < 0x20_0000)
  {
  }
}
