/**
 * The attributes of a terminal node of the binary dictionary: a read-only
 * view of a node's flags and offset that answers whether the node is
 * blacklisted or not a word, and hands out a cursor over the node's list of
 * shortcut targets.
 *
 * On disk a shortcut list is a length header of `ShortcutListSizeSize` bytes
 * followed by entries; each entry is one flags byte (has-next bit and weight),
 * the target's code points and the terminator byte.  The header exists so
 * that other readers can skip the list; this decoder steps over it unread and
 * follows the has-next bits instead.
 */
module Terminal {
  import opened BinaryFormat

  /** One decoded shortcut target: its code points and its weight. */
  datatype Target = Target(word: seq<int>, freq: int)

  /** The state of a shortcut iterator: the cursor and the has-next flag. */
  datatype Cursor = Cursor(pos: int, hasNext: bool)

  /** What one call of the iterator yields: the target and the new state. */
  datatype Step = Step(target: Target, cursor: Cursor)

  /**
   * The reads of the code point loop, entered with `i` code points already
   * stored and the cursor at `pos`, stay inside the buffer.
   */
  predicate CodePointsReadable(dict: seq<Byte>, pos: int, i: nat)
    requires i <= MaxWordLength
    decreases MaxWordLength - i
  {
    i == MaxWordLength ||
    (CodePointReadable(dict, pos) &&
     var c := GetCodePointAndForwardPointer(dict, pos);
     c.value == NotACodePoint || CodePointsReadable(dict, c.next, i + 1))
  }

  /**
   * The code point loop of `getNextShortcutTarget`, entered with the code
   * points `stored` (`i` of them) already written and the cursor at `pos`:
   * each turn reads one code point; the sentinel is consumed and ends the
   * loop without being stored, and once `MaxWordLength` code points are
   * stored the loop ends without reading more.  Yields everything stored and
   * the final cursor.
   */
  function CodePointLoop(dict: seq<Byte>, pos: int, i: nat, stored: seq<int>): (r: Read<seq<int>>)
    requires i <= MaxWordLength && CodePointsReadable(dict, pos, i)
    ensures |stored| <= |r.value| <= |stored| + MaxWordLength - i
    decreases MaxWordLength - i
  {
    if i == MaxWordLength then Read(stored, pos)
    else
      var c := GetCodePointAndForwardPointer(dict, pos);
      if c.value == NotACodePoint then Read(stored, c.next)
      else CodePointLoop(dict, c.next, i + 1, stored + [c.value])
  }

  /**
   * What the loop leaves behind: what was stored before is kept as a prefix,
   * no newly stored value is the sentinel, the cursor has moved forward
   * unless no read was allowed, and when the loop stops short of
   * `MaxWordLength` code points the last byte it consumed is the terminator.
   */
  lemma {:induction false} CodePointLoopBounds(dict: seq<Byte>, pos: int, i: nat, stored: seq<int>)
    requires i <= MaxWordLength && CodePointsReadable(dict, pos, i)
    ensures var r := CodePointLoop(dict, pos, i, stored);
      && r.value[..|stored|] == stored
      && (forall k :: |stored| <= k < |r.value| ==> r.value[k] != NotACodePoint)
      && (i == MaxWordLength ==> r == Read(stored, pos))
      && (i < MaxWordLength ==> pos < r.next <= |dict|)
      && (|r.value| - |stored| < MaxWordLength - i ==> pos < r.next && dict[r.next - 1] == CharacterArrayTerminator)
    decreases MaxWordLength - i
  {
    if i < MaxWordLength {
      var c := GetCodePointAndForwardPointer(dict, pos);
      CodePointSentinel(dict, pos);
      if c.value != NotACodePoint {
        var extended := stored + [c.value];
        CodePointLoopBounds(dict, c.next, i + 1, extended);
        var r := CodePointLoop(dict, c.next, i + 1, extended);
        assert r.value[..|stored|] == r.value[..|extended|][..|stored|];
      }
    }
  }

  /** Reading code points from `pos` yields exactly `w`, none the sentinel, and stops at `end`. */
  predicate ReadsAs(dict: seq<Byte>, pos: int, w: seq<int>, end: int)
    decreases |w|
  {
    if w == [] then pos == end
    else
      && CodePointReadable(dict, pos)
      && var c := GetCodePointAndForwardPointer(dict, pos);
      && c.value == w[0] && c.value != NotACodePoint
      && ReadsAs(dict, c.next, w[1..], end)
  }

  /**
   * Where the loop leaves the cursor: when it stops short of its bound, the
   * code points it stored were read from the bytes up to the terminator and
   * the terminator was the last byte consumed; when it reached the bound,
   * the cursor is just past the last code point read and nothing more was
   * consumed.
   */
  lemma {:induction false} CodePointLoopReads(dict: seq<Byte>, pos: int, i: nat, stored: seq<int>)
    requires i <= MaxWordLength && CodePointsReadable(dict, pos, i)
    ensures var r := CodePointLoop(dict, pos, i, stored);
      var w := r.value[|stored|..];
      if |w| < MaxWordLength - i then
        && pos < r.next <= |dict|
        && ReadsAs(dict, pos, w, r.next - 1)
        && dict[r.next - 1] == CharacterArrayTerminator
      else ReadsAs(dict, pos, w, r.next)
    decreases MaxWordLength - i
  {
    if i < MaxWordLength {
      var c := GetCodePointAndForwardPointer(dict, pos);
      CodePointSentinel(dict, pos);
      if c.value != NotACodePoint {
        var extended := stored + [c.value];
        CodePointLoopReads(dict, c.next, i + 1, extended);
        CodePointLoopBounds(dict, c.next, i + 1, extended);
        var r := CodePointLoop(dict, c.next, i + 1, extended);
        var w := r.value[|stored|..];
        assert w[0] == c.value && w[1..] == r.value[|extended|..];
      }
    }
  }

  /**
   * The loop of `getNextShortcutTarget` over the caller's array: decodes code
   * points from `start` into `outWord` until the sentinel or until
   * `MaxWordLength` are stored, and returns their number and the cursor
   * after the last read.  No cell from index `i` on is written.
   */
  method ReadCodePointsInto(dict: seq<Byte>, start: int, outWord: array<int>) returns (i: int, cursor: int)
    requires CodePointsReadable(dict, start, 0)
    requires |CodePointLoop(dict, start, 0, []).value| <= outWord.Length
    modifies outWord
    ensures var r := CodePointLoop(dict, start, 0, []);
      i == |r.value| && outWord[..i] == r.value && cursor == r.next
    ensures outWord[i..] == old(outWord[i..])
  {
    ghost var word := CodePointLoop(dict, start, 0, []);
    cursor := start;
    i := 0;
    while i < MaxWordLength
      invariant 0 <= i <= MaxWordLength && i <= |word.value|
      invariant CodePointsReadable(dict, cursor, i)
      invariant CodePointLoop(dict, cursor, i, outWord[..i]) == word
      invariant outWord[i..] == old(outWord[i..])
    {
      var codePoint := GetCodePointAndForwardPointer(dict, cursor);
      cursor := codePoint.next;
      if codePoint.value == NotACodePoint {
        break;
      }
      ghost var done := outWord[..i];
      outWord[i] := codePoint.value;
      assert outWord[..i + 1] == done + [codePoint.value];
      i := i + 1;
    }
  }

  /** Every read of one call of the iterator at `pos` stays inside the buffer. */
  predicate TargetReadable(dict: seq<Byte>, pos: int)
  {
    FlagsReadable(dict, pos) && CodePointsReadable(dict, pos + 1, 0)
  }

  /**
   * One call of `getNextShortcutTarget` with the cursor at `pos`: read the
   * entry's flags byte, decode at most `MaxWordLength` code points, and take
   * both the new has-next state and the weight from that one flags byte.
   */
  function NextShortcutTarget(dict: seq<Byte>, pos: int): (s: Step)
    requires TargetReadable(dict, pos)
    ensures |s.target.word| <= MaxWordLength
  {
    var flags := GetFlagsAndForwardPointer(dict, pos);
    var word := CodePointLoop(dict, flags.next, 0, []);
    Step(Target(word.value, GetAttributeFrequencyFromFlags(flags.value)),
         Cursor(word.next, AttributeHasNext(flags.value)))
  }

  /**
   * What one call yields: the cursor has moved past the flags byte and at
   * least one more byte, no stored code point is the sentinel, and the new
   * has-next state and the weight both come from the flags byte that was at
   * the cursor when the call began.
   */
  lemma NextShortcutTargetBounds(dict: seq<Byte>, pos: int)
    requires TargetReadable(dict, pos)
    ensures var s := NextShortcutTarget(dict, pos);
      && pos + 1 < s.cursor.pos <= |dict|
      && (forall k :: 0 <= k < |s.target.word| ==> s.target.word[k] != NotACodePoint)
      && var flags := GetFlagsAndForwardPointer(dict, pos).value;
      && s.cursor.hasNext == AttributeHasNext(flags)
      && s.target.freq == GetAttributeFrequencyFromFlags(flags)
  {
    CodePointLoopBounds(dict, pos + 1, 0, []);
  }

  /**
   * Where one call leaves the cursor: a word shorter than `MaxWordLength` was
   * read from the bytes after the flags byte up to a terminator, and the
   * cursor is just past that terminator; a word of `MaxWordLength` code
   * points leaves the cursor just past its last code point, whatever follows.
   */
  lemma NextShortcutTargetLayout(dict: seq<Byte>, pos: int)
    requires TargetReadable(dict, pos)
    ensures var s := NextShortcutTarget(dict, pos);
      if |s.target.word| < MaxWordLength then
        && pos + 1 < s.cursor.pos <= |dict|
        && ReadsAs(dict, pos + 1, s.target.word, s.cursor.pos - 1)
        && dict[s.cursor.pos - 1] == CharacterArrayTerminator
      else ReadsAs(dict, pos + 1, s.target.word, s.cursor.pos)
  {
    NextShortcutTargetBounds(dict, pos);
    CodePointLoopReads(dict, pos + 1, 0, []);
    var r := CodePointLoop(dict, pos + 1, 0, []);
    assert r.value[0..] == r.value;
  }

  /** The first `n` calls of an iterator whose cursor is at `pos` stay inside the buffer. */
  predicate RunReadable(dict: seq<Byte>, pos: int, n: nat)
    decreases n
  {
    n == 0 ||
    (TargetReadable(dict, pos) && RunReadable(dict, NextShortcutTarget(dict, pos).cursor.pos, n - 1))
  }

  /** The targets yielded by some calls and the state in which they leave the iterator. */
  datatype Trace = Trace(targets: seq<Target>, cursor: Cursor)

  /**
   * `n` successive calls of the iterator from state `c`.  Like the code, a
   * call does not look at the has-next state it starts in.
   */
  function Run(dict: seq<Byte>, c: Cursor, n: nat): (t: Trace)
    requires RunReadable(dict, c.pos, n)
    ensures |t.targets| == n
    decreases n
  {
    if n == 0 then Trace([], c)
    else
      var s := NextShortcutTarget(dict, c.pos);
      var t := Run(dict, s.cursor, n - 1);
      Trace([s.target] + t.targets, t.cursor)
  }

  /**
   * A cursor over the shortcut list of one terminal node.  The buffer is
   * shared and read-only; the cursor only moves forward.
   */
  class ShortcutIterator {
    const dict: seq<Byte>
    var pos: int
    var hasNext: bool

    /** The iterator's state as a value. */
    function State(): (c: Cursor)
      reads this
      ensures c.pos == pos && c.hasNext == hasNext
    {
      Cursor(pos, hasNext)
    }

    /** Starts at `pos`, with a next target exactly when the node flags announce shortcuts. */
    constructor (dict: seq<Byte>, pos: int, nodeFlags: Byte)
      ensures this.dict == dict
      ensures State() == Cursor(pos, HasShortcutTargets(nodeFlags))
    {
      this.dict := dict;
      this.pos := pos;
      this.hasNext := HasShortcutTargets(nodeFlags);
    }

    /** Whether another target follows; a query that reads the state and changes nothing. */
    function HasNextShortcutTarget(): (b: bool)
      reads this
      ensures b <==> State().hasNext
    {
      hasNext
    }

    /**
     * Decodes the entry at the cursor into `outWord` and returns the number
     * of code points written and the entry's weight.  `maxDepth` is taken
     * but not used: the loop is bounded by `MaxWordLength`.  Only the first
     * `i` cells of `outWord` are written.
     */
    method GetNextShortcutTarget(maxDepth: int, outWord: array<int>) returns (i: int, outFreq: int)
      requires TargetReadable(dict, pos)
      requires |NextShortcutTarget(dict, pos).target.word| <= outWord.Length
      modifies this, outWord
      ensures var s := NextShortcutTarget(dict, old(pos));
        && i == |s.target.word|
        && outWord[..i] == s.target.word
        && outFreq == s.target.freq
        && State() == s.cursor
      ensures 0 <= i <= MaxWordLength
      ensures outWord[i..] == old(outWord[i..])
    {
      var flags := GetFlagsAndForwardPointer(dict, pos);
      var cursor;
      i, cursor := ReadCodePointsInto(dict, flags.next, outWord);
      pos, hasNext := cursor, AttributeHasNext(flags.value);
      outFreq := GetAttributeFrequencyFromFlags(flags.value);
    }
  }

  /** An immutable view of one terminal node: the buffer, the node's flags and its offset. */
  datatype TerminalAttributes = TerminalAttributes(dict: seq<Byte>, flags: Byte, startPos: int)
  {
    /** The state a new shortcut iterator starts in: just past the length header. */
    function ShortcutStart(): (c: Cursor)
      ensures c.pos == startPos + ShortcutListSizeSize
      ensures c.hasNext <==> HasShortcutTargets(flags)
    {
      Cursor(startPos + ShortcutListSizeSize, HasShortcutTargets(flags))
    }

    /** A fresh iterator over this node's shortcut list; the length header is not read. */
    method GetShortcutIterator() returns (it: ShortcutIterator)
      ensures fresh(it)
      ensures it.dict == dict && it.State() == ShortcutStart()
    {
      it := new ShortcutIterator(dict, startPos + ShortcutListSizeSize, flags);
    }

    /** Whether the node is marked blacklisted, not a word, or both. */
    predicate IsBlacklistedOrNotAWord()
      ensures IsBlacklistedOrNotAWord() <==>
        (Masked(flags, FlagIsBlacklisted) != 0 || Masked(flags, FlagIsNotAWord) != 0)
      ensures IsBlacklistedOrNotAWord() <==> (IsBlacklisted(flags) || IsNotAWord(flags))
    {
      IsBlacklistedMask(flags);
      IsNotAWordMask(flags);
      Masked(flags, FlagIsBlacklisted | FlagIsNotAWord) != 0
    }
  }
}
