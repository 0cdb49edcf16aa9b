# Terminal attributes of the LatinIME binary dictionary, in Dafny

This project models the decoder for the attributes of a terminal node in
LatinIME's binary dictionary (`native/jni/src/terminal_attributes.h`).

A `TerminalAttributes` is an immutable view of three things: a dictionary
buffer, a terminal node's flags byte, and the offset of the node's attribute
area. It does two jobs:

- It answers whether the node is blacklisted or not a word.
- It hands out a `ShortcutIterator` that starts just past the shortcut list's
  length header. The header is never read.

The iterator is a small state machine with a cursor and a has-next flag. Each
call of `getNextShortcutTarget` does four things:

1. It reads one attribute flags byte.
2. It takes the new has-next state from that byte.
3. It decodes code points into the caller's array until it reads the
   terminator or has stored `MAX_WORD_LENGTH` of them.
4. It returns the number stored, and the weight from the same flags byte.

The project has three modules.

- `BinaryFormat` (`binary_format.dfy`) holds the byte-level primitives the
  decoder calls:
  - the flag masks and constants;
  - reading a flags byte;
  - reading a code point (one byte from 0x20 up, the terminator byte 0x1F,
    otherwise three bytes, big-endian);
  - taking the weight out of a flags byte.

  Each reader returns the value together with the advanced cursor. The flag
  tests are written on the byte's value. Lemmas prove each test equals the
  test of its `bv8` mask.
- `Terminal` (`terminal_attributes.dfy`) is the decoder itself.
  - `ShortcutIterator` is a class with the fields `dict` (constant), `pos`
    and `hasNext`.
  - `GetNextShortcutTarget` is a method. Its loop writes into an
    `array<int>`, and it is proved against the specification function
    `NextShortcutTarget`.
  - `TerminalAttributes` is a datatype, because nothing in it ever changes.
  - `Run` is `n` successive calls of the iterator.
- `ShortcutEncoding` (`shortcut_encoding.dfy`) is a reference writer for
  shortcut lists: entries of a flags byte, code points and the terminator,
  chained by has-next bits. Its lemmas prove that the decoder reads back what
  the writer wrote, at every level:
  - a code point;
  - a word;
  - an entry;
  - a whole list behind a length header of any content, with anything
    before or after it.

Two points about what the code does. The model follows the code on both.

- The `maxDepth` parameter of `getNextShortcutTarget` is not used. The word
  is bounded by `MAX_WORD_LENGTH` only.
- When an entry holds `MAX_WORD_LENGTH` code points or more, the loop stops
  after the cap. The remaining code points and the terminator are not
  consumed, so the cursor is left inside the entry
  (`ShortcutEncoding.LongEntryStopsEarly`). The terminator is consumed only
  when the loop breaks on it (`Terminal.NextShortcutTargetLayout`).

## Model

| member | source | states |
|---|---|---|
| BinaryFormat.HasShortcutTargetsMask | native/jni/src/terminal_attributes.h:36 | the node test used by the iterator is exactly `flags & FLAG_HAS_SHORTCUT_TARGETS` being non-zero |
| BinaryFormat.AttributeHasNextMask | native/jni/src/terminal_attributes.h:47 | the has-next test on an attribute flags byte is exactly `flags & FLAG_ATTRIBUTE_HAS_NEXT` being non-zero |
| BinaryFormat.IsBlacklistedMask | native/jni/src/terminal_attributes.h:75 | the blacklisted test is exactly `flags & FLAG_IS_BLACKLISTED` being non-zero |
| BinaryFormat.IsNotAWordMask | native/jni/src/terminal_attributes.h:75 | the not-a-word test is exactly `flags & FLAG_IS_NOT_A_WORD` being non-zero |
| BinaryFormat.GetFlagsAndForwardPointer | native/jni/src/terminal_attributes.h:46 | reading a flags byte moves the cursor forward by exactly one byte, within the buffer |
| BinaryFormat.GetCodePointAndForwardPointer | native/jni/src/terminal_attributes.h:50 | reading a code point moves the cursor strictly forward and stays within the buffer |
| BinaryFormat.CodePointSentinel | native/jni/src/terminal_attributes.h:50-51 | the reader yields `NOT_A_CODE_POINT` exactly on the terminator byte and then consumes one byte; any other read is a non-negative code point |
| BinaryFormat.GetAttributeFrequencyFromFlags | native/jni/src/terminal_attributes.h:54 | the weight of a flags byte lies in 0..15 and is zero exactly when the low four bits are clear |
| Terminal.CodePointLoop | native/jni/src/terminal_attributes.h:48-53 | the loop stores at most as many code points as the cap leaves room for, after those already stored |
| Terminal.CodePointLoopBounds | native/jni/src/terminal_attributes.h:48-53 | the loop keeps what was stored; no stored value is `NOT_A_CODE_POINT`; the cursor moves forward unless no read is allowed; stopping short of the cap means the last byte consumed was the terminator |
| Terminal.CodePointLoopReads | native/jni/src/terminal_attributes.h:48-53 | the stored code points are exactly what the bytes read decode to; below the cap, the cursor ends just past the terminator; at the cap, it ends just past the last code point, with no further read |
| Terminal.ReadCodePointsInto | native/jni/src/terminal_attributes.h:48-53 | the `for` loop over the caller's array writes exactly the decoded code points to `outWord[0..i)`, returns their number and the cursor, and leaves `outWord[i..]` untouched |
| Terminal.NextShortcutTarget | native/jni/src/terminal_attributes.h:45-55 | one call never yields more than `MAX_WORD_LENGTH` code points |
| Terminal.NextShortcutTargetBounds | native/jni/src/terminal_attributes.h:45-55 | one call moves the cursor strictly forward, past the flags byte and at least one more byte; no stored value is the sentinel; the has-next state and the weight both come from the flags byte at the starting cursor |
| Terminal.NextShortcutTargetLayout | native/jni/src/terminal_attributes.h:46-53 | below the cap, the cursor ends just after the flags byte, the code points and the terminator; at the cap, it ends just after the last code point read |
| Terminal.Run | native/jni/src/terminal_attributes.h:45-55 | `n` successive calls yield `n` targets; like the code, a call does not consult the has-next state |
| Terminal.ShortcutIterator.constructor | native/jni/src/terminal_attributes.h:34-37 | a new iterator sits at the given offset, with a next target exactly when the node flags have `FLAG_HAS_SHORTCUT_TARGETS` |
| Terminal.ShortcutIterator.HasNextShortcutTarget | native/jni/src/terminal_attributes.h:39-41 | a query of the has-next state that only reads the object |
| Terminal.ShortcutIterator.GetNextShortcutTarget | native/jni/src/terminal_attributes.h:45-55 | writes the decoded word to `outWord[0..i)`, returns `i` in 0..`MAX_WORD_LENGTH` and the entry's weight, moves to the state of the specification, and writes no cell from `i` on |
| Terminal.TerminalAttributes.ShortcutStart | native/jni/src/terminal_attributes.h:68-72 | an iterator starts at `startPos + SHORTCUT_LIST_SIZE_SIZE`, with a next target exactly when the node has shortcuts |
| Terminal.TerminalAttributes.GetShortcutIterator | native/jni/src/terminal_attributes.h:68-72 | the factory returns a fresh iterator over the same buffer, in the start state, without reading the length header |
| Terminal.TerminalAttributes.IsBlacklistedOrNotAWord | native/jni/src/terminal_attributes.h:74-76 | true exactly when the blacklisted mask or the not-a-word mask selects a set bit, including when both do |
| ShortcutEncoding.CodePointRoundTrip | native/jni/src/terminal_attributes.h:50 | a written code point reads back as itself and is consumed whole |
| ShortcutEncoding.AttributeFlagsRead | native/jni/src/terminal_attributes.h:46-54 | the has-next bit and the weight written into a flags byte are the ones the decoder takes out of it |
| ShortcutEncoding.EncodedWordReads | native/jni/src/terminal_attributes.h:48-53 | the bytes of a written word decode as that word, code point by code point, and end where the encoding ends |
| ShortcutEncoding.LoopOverReads | native/jni/src/terminal_attributes.h:48-53 | the loop passes over a readable word whole, storing it after what was already stored, when the cap leaves room |
| ShortcutEncoding.ShortEntryRead | native/jni/src/terminal_attributes.h:45-55 | a call on a word below the cap followed by the terminator yields the word and leaves the cursor just past the terminator (the converse of `NextShortcutTargetLayout`) |
| ShortcutEncoding.LongEntryRead | native/jni/src/terminal_attributes.h:49-53 | a call on `MAX_WORD_LENGTH` readable code points yields them and leaves the cursor just past them, whatever follows |
| ShortcutEncoding.EntryDecodes | native/jni/src/terminal_attributes.h:45-55 | a written entry with a short word decodes to its target, its has-next bit, and a cursor just past the entry |
| ShortcutEncoding.LongEntryStopsEarly | native/jni/src/terminal_attributes.h:49-53 | a written entry of at least `MAX_WORD_LENGTH` code points yields only the first `MAX_WORD_LENGTH`, with the entry's weight and has-next bit, and leaves the rest and the terminator unread under the cursor |
| ShortcutEncoding.EntriesDecode | native/jni/src/terminal_attributes.h:45-55 | written entries decode one by one: the call at each entry yields its target and moves to the next entry |
| ShortcutEncoding.RunDecodes | native/jni/src/terminal_attributes.h:45-55 | successive calls over decoding entries yield the targets in order, and the has-next state stays set exactly while targets remain |
| ShortcutEncoding.IteratorDecodes | native/jni/src/terminal_attributes.h:45-72 | the iterator from the factory yields the first `k` targets of a list that starts past the header, and then reports a next target exactly when some remain |
| ShortcutEncoding.ShortcutListPrefix | native/jni/src/terminal_attributes.h:45-72 | behind a length header of any content, the first `k` calls yield the first `k` written targets and leave the cursor on entry `k` |
| ShortcutEncoding.ShortcutListDecodes | native/jni/src/terminal_attributes.h:45-72 | a chain of N written entries, where only the last lacks has-next, is exhausted by exactly N calls; they return the words and weights in order and leave the cursor just past the list |
| ShortcutEncoding.ExampleFirstCall | native/jni/src/terminal_attributes.h:45-72 | for a node holding "ok" (weight 12) then "okay" (weight 8), the first call yields "ok" and the iterator still has a next target |
| ShortcutEncoding.ExampleExhausted | native/jni/src/terminal_attributes.h:45-72 | on the same node, two calls yield "ok" and "okay"; the iterator is then exhausted, with the cursor at the end of the buffer |

## Left out

- `binary_format.h` and `defines.h` are not part of this model. The
  primitives they provide are written as a small reference decoder. These
  values are assumed:
  - `FLAG_HAS_SHORTCUT_TARGETS` 0x08;
  - `FLAG_IS_NOT_A_WORD` 0x02;
  - `FLAG_IS_BLACKLISTED` 0x01;
  - `FLAG_ATTRIBUTE_HAS_NEXT` 0x80;
  - a four-bit weight;
  - `SHORTCUT_LIST_SIZE_SIZE` 2;
  - `MAX_WORD_LENGTH` 48;
  - `NOT_A_CODE_POINT` -1;
  - the one-byte/three-byte code point layout with terminator 0x1F.
- BinaryFormat.GetAttributeFrequencyFromFlags: the weight is defined as the
  flags value modulo 16. Its equality with masking by 0x0F is not stated as a
  lemma, because that proof goes through a symbolic int-to-`bv8` conversion
  that is too costly for the solver.
- `maxDepth` is taken by `GetNextShortcutTarget` and ignored, as in the code.
  No truncation at `maxDepth` is modelled.
- Out-of-bounds reads and malformed buffers: the code never checks bounds.
  The model requires in-bounds reads (`TargetReadable`, `RunReadable`) and
  invents no error reporting.
- The consistency of the length header with the has-next chain is not
  checked by the code. The model does not check it either: the header
  contents are arbitrary in `ShortcutListDecodes`.
- Calling `getNextShortcutTarget` on an exhausted iterator: the code does
  not check the has-next state, and the model has no precondition on it.
  What such a call reads depends on the bytes that follow.
- Raw pointers are not modelled. The buffer is a value, so aliasing between
  the buffer and `outWord` cannot be expressed. `DISALLOW_IMPLICIT_CONSTRUCTORS`
  and sharing between threads are left out as well.
- The caller must supply an `outWord` with room for the decoded word, which
  is at most `MAX_WORD_LENGTH` cells. This is a precondition of
  `GetNextShortcutTarget`, as the code assumes.
- The `TerminalAttributes` constructor is the datatype's constructor and
  holds no logic of its own.
