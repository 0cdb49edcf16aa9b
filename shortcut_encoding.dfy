/**
 * A reference writer for shortcut lists, the inverse of the terminal
 * attribute decoder: an entry is a flags byte (has-next bit and weight), the
 * target's code points and the terminator byte, and a list chains entries
 * whose has-next bits are set on every entry but the last.
 *
 * The lemmas prove that the decoder reads back what the writer wrote: one
 * code point, one word, one entry, a whole list, and a list behind a node's
 * length header, wherever in the buffer it sits and whatever follows it.
 */
module ShortcutEncoding {
  import opened BinaryFormat
  import opened Terminal

  /** A Unicode scalar range value; every such value fits the three-byte form. */
  predicate ValidCodePoint(c: int)
  {
    0 <= c < 0x11_0000
  }

  predicate ValidWord(w: seq<int>)
  {
    forall k :: 0 <= k < |w| ==> ValidCodePoint(w[k])
  }

  /** A target the writer can store: valid code points and a four-bit weight. */
  predicate ValidTarget(t: Target)
  {
    ValidWord(t.word) && 0 <= t.freq <= 15
  }

  /**
   * One code point: a single byte when it is at least 0x20 and fits a byte,
   * otherwise three bytes, most significant first.
   */
  function EncodeCodePoint(c: int): (bytes: seq<Byte>)
    requires ValidCodePoint(c)
    ensures |bytes| == 1 || |bytes| == 3
    ensures bytes[0] != CharacterArrayTerminator
  {
    if MinimalOneByteCharacterValue as int <= c < 0x100 then [c as Byte]
    else [(c / 0x1_0000) as Byte, (c / 0x100 % 0x100) as Byte, (c % 0x100) as Byte]
  }

  /** The code points of a word, without the terminator. */
  function EncodeWord(w: seq<int>): (bytes: seq<Byte>)
    requires ValidWord(w)
    ensures |w| <= |bytes| <= 3 * |w|
  {
    if w == [] then [] else EncodeCodePoint(w[0]) + EncodeWord(w[1..])
  }

  /** The flags byte of an entry: the has-next bit over the weight. */
  function AttributeFlags(freq: int, hasNext: bool): (b: Byte)
    requires 0 <= freq <= 15
    ensures hasNext <==> 0x80 <= b
  {
    (if hasNext then 0x80 else 0) + freq as Byte
  }

  /** One entry of a shortcut list. */
  function EncodeEntry(t: Target, hasNext: bool): (bytes: seq<Byte>)
    requires ValidTarget(t)
    ensures |bytes| == |EncodeWord(t.word)| + 2
  {
    [AttributeFlags(t.freq, hasNext)] + EncodeWord(t.word) + [CharacterArrayTerminator]
  }

  predicate ValidTargets(ts: seq<Target>)
  {
    forall k :: 0 <= k < |ts| ==> ValidTarget(ts[k])
  }

  /** The targets' words are short enough to be decoded whole. */
  predicate ShortTargets(ts: seq<Target>)
  {
    && ValidTargets(ts)
    && forall k :: 0 <= k < |ts| ==> |ts[k].word| < MaxWordLength
  }

  /** A chain of entries, each but the last announcing a successor. */
  function EncodeList(ts: seq<Target>): (bytes: seq<Byte>)
    requires ValidTargets(ts)
    ensures |bytes| >= 2 * |ts|
  {
    if ts == [] then []
    else EncodeEntry(ts[0], |ts| > 1) + EncodeList(ts[1..])
  }

  /** The decoder reads back the has-next bit and the weight of a flags byte. */
  lemma AttributeFlagsRead(freq: int, hasNext: bool)
    requires 0 <= freq <= 15
    ensures var f := AttributeFlags(freq, hasNext);
      && AttributeHasNext(f) == hasNext
      && GetAttributeFrequencyFromFlags(f) == freq
  {
  }

  /** The encoding of a word is the encodings of its parts, one after the other. */
  lemma {:induction false} EncodeWordAppend(a: seq<int>, b: seq<int>)
    requires ValidWord(a) && ValidWord(b)
    ensures ValidWord(a + b) && EncodeWord(a + b) == EncodeWord(a) + EncodeWord(b)
    decreases |a|
  {
    if a == [] {
      assert a + b == b;
    } else {
      assert (a + b)[1..] == a[1..] + b;
      EncodeWordAppend(a[1..], b);
    }
  }

  /** The buffer holds `bytes` from `pos` on. */
  predicate At(dict: seq<Byte>, pos: int, bytes: seq<Byte>)
  {
    0 <= pos && pos + |bytes| <= |dict| && dict[pos..pos + |bytes|] == bytes
  }

  lemma AtSplit(dict: seq<Byte>, pos: int, a: seq<Byte>, b: seq<Byte>)
    requires At(dict, pos, a + b)
    ensures At(dict, pos, a) && At(dict, pos + |a|, b)
  {
    assert dict[pos..pos + |a|] == (a + b)[..|a|];
    assert dict[pos + |a|..pos + |a| + |b|] == (a + b)[|a|..];
  }

  /** A written code point reads back as itself and is consumed whole. */
  lemma CodePointRoundTrip(dict: seq<Byte>, pos: int, c: int)
    requires ValidCodePoint(c) && At(dict, pos, EncodeCodePoint(c))
    ensures CodePointReadable(dict, pos)
    ensures GetCodePointAndForwardPointer(dict, pos) == Read(c, pos + |EncodeCodePoint(c)|)
  {
    var e := EncodeCodePoint(c);
    assert dict[pos] == e[0];
    if |e| == 3 {
      assert dict[pos + 1] == e[1] && dict[pos + 2] == e[2];
      ThreeBytes(c);
    }
  }

  /** The three bytes of a code point, most significant first, put it back together. */
  lemma ThreeBytes(c: int)
    requires ValidCodePoint(c)
    ensures c / 0x1_0000 < MinimalOneByteCharacterValue as int && c / 0x1_0000 != CharacterArrayTerminator as int
    ensures c == c / 0x1_0000 * 0x1_0000 + c / 0x100 % 0x100 * 0x100 + c % 0x100
  {
    var hi, mid := c / 0x1_0000, c / 0x100 % 0x100;
    assert c / 0x100 == hi * 0x100 + mid;
  }

  /** The first code point of a written word and the rest of its encoding. */
  lemma WordSplit(dict: seq<Byte>, pos: int, w: seq<int>)
    requires ValidWord(w) && w != [] && At(dict, pos, EncodeWord(w))
    ensures ValidCodePoint(w[0]) && ValidWord(w[1..])
    ensures GetCodePointAndForwardPointer(dict, pos) == Read(w[0], pos + |EncodeCodePoint(w[0])|)
    ensures CodePointReadable(dict, pos)
    ensures At(dict, pos + |EncodeCodePoint(w[0])|, EncodeWord(w[1..]))
    ensures |EncodeWord(w)| == |EncodeCodePoint(w[0])| + |EncodeWord(w[1..])|
  {
    var more := w[1..];
    ValidSlices(w, 1);
    AtSplit(dict, pos, EncodeCodePoint(w[0]), EncodeWord(more));
    CodePointRoundTrip(dict, pos, w[0]);
  }

  lemma {:induction false} EncodedWordReads(dict: seq<Byte>, pos: int, w: seq<int>)
    requires ValidWord(w) && At(dict, pos, EncodeWord(w))
    ensures ReadsAs(dict, pos, w, pos + |EncodeWord(w)|)
    decreases |w|
  {
    if w != [] {
      WordSplit(dict, pos, w);
      EncodedWordReads(dict, pos + |EncodeCodePoint(w[0])|, w[1..]);
    }
  }

  lemma {:induction false} LoopOverReads(dict: seq<Byte>, pos: int, w: seq<int>, end: int, i: nat, stored: seq<int>)
    requires i + |w| <= MaxWordLength && ReadsAs(dict, pos, w, end)
    requires CodePointsReadable(dict, end, i + |w|)
    ensures CodePointsReadable(dict, pos, i)
    ensures CodePointLoop(dict, pos, i, stored) == CodePointLoop(dict, end, i + |w|, stored + w)
    decreases |w|
  {
    if w == [] {
      assert stored + w == stored;
    } else {
      var c := GetCodePointAndForwardPointer(dict, pos);
      LoopOverReads(dict, c.next, w[1..], end, i + 1, stored + [w[0]]);
      assert stored + [w[0]] + w[1..] == stored + w;
    }
  }

  /** The parts of a written entry: flags byte, code points, terminator. */
  lemma EntryParts(dict: seq<Byte>, pos: int, t: Target, hasNext: bool)
    requires ValidTarget(t) && At(dict, pos, EncodeEntry(t, hasNext))
    ensures dict[pos] == AttributeFlags(t.freq, hasNext)
    ensures At(dict, pos + 1, EncodeWord(t.word))
    ensures dict[pos + 1 + |EncodeWord(t.word)|] == CharacterArrayTerminator
  {
    var f := AttributeFlags(t.freq, hasNext);
    AtSplit(dict, pos, [f] + EncodeWord(t.word), [CharacterArrayTerminator]);
    AtSplit(dict, pos, [f], EncodeWord(t.word));
  }

  /**
   * One call of the iterator on an entry whose code points read as `w`,
   * fewer than `MaxWordLength`, followed by the terminator at `end`: it
   * yields `w` and leaves the cursor just past the terminator.
   */
  lemma ShortEntryRead(dict: seq<Byte>, pos: int, w: seq<int>, end: int)
    requires |w| < MaxWordLength && 0 <= pos && ReadsAs(dict, pos + 1, w, end)
    requires 0 <= end < |dict| && dict[end] == CharacterArrayTerminator
    ensures TargetReadable(dict, pos)
    ensures NextShortcutTarget(dict, pos).target.word == w
    ensures NextShortcutTarget(dict, pos).cursor.pos == end + 1
  {
    assert CodePointReadable(dict, pos + 1);
    assert CodePointsReadable(dict, end, |w|);
    LoopOverReads(dict, pos + 1, w, end, 0, []);
    assert [] + w == w;
  }

  /**
   * One call of the iterator on an entry whose first code points read as
   * `w`, exactly `MaxWordLength` of them, up to `end`: it yields `w` and
   * leaves the cursor at `end`, whatever byte is there.
   */
  lemma LongEntryRead(dict: seq<Byte>, pos: int, w: seq<int>, end: int)
    requires |w| == MaxWordLength && 0 <= pos && ReadsAs(dict, pos + 1, w, end)
    ensures TargetReadable(dict, pos)
    ensures NextShortcutTarget(dict, pos).target.word == w
    ensures NextShortcutTarget(dict, pos).cursor.pos == end
  {
    assert CodePointReadable(dict, pos + 1);
    LoopOverReads(dict, pos + 1, w, end, 0, []);
    assert [] + w == w;
  }

  /** A written entry with a short word reads back as its target and has-next bit. */
  lemma EntryDecodes(dict: seq<Byte>, pos: int, t: Target, hasNext: bool)
    requires ValidTarget(t) && |t.word| < MaxWordLength && At(dict, pos, EncodeEntry(t, hasNext))
    ensures TargetReadable(dict, pos)
    ensures NextShortcutTarget(dict, pos) == Step(t, Cursor(pos + |EncodeEntry(t, hasNext)|, hasNext))
  {
    EntryParts(dict, pos, t, hasNext);
    AttributeFlagsRead(t.freq, hasNext);
    EncodedWordReads(dict, pos + 1, t.word);
    ShortEntryRead(dict, pos, t.word, pos + 1 + |EncodeWord(t.word)|);
  }

  /**
   * An entry whose word has at least `MaxWordLength` code points: one call
   * yields only the first `MaxWordLength` of them, with the entry's weight
   * and has-next bit, and leaves the cursor inside the entry, on the
   * encoding of the code points it did not read and the terminator.
   */
  lemma LongEntryStopsEarly(dict: seq<Byte>, pos: int, t: Target, hasNext: bool)
    requires ValidTarget(t) && MaxWordLength <= |t.word| && At(dict, pos, EncodeEntry(t, hasNext))
    ensures TargetReadable(dict, pos)
    ensures var head, tail := t.word[..MaxWordLength], t.word[MaxWordLength..];
      && ValidWord(head) && ValidWord(tail)
      && var s := NextShortcutTarget(dict, pos);
      && s == Step(Target(head, t.freq), Cursor(pos + 1 + |EncodeWord(head)|, hasNext))
      && At(dict, s.cursor.pos, EncodeWord(tail) + [CharacterArrayTerminator])
  {
    var head := t.word[..MaxWordLength];
    var end := pos + 1 + |EncodeWord(head)|;
    LongEntryParts(dict, pos, t, hasNext);
    AttributeFlagsRead(t.freq, hasNext);
    EncodedWordReads(dict, pos + 1, head);
    LongEntryRead(dict, pos, head, end);
  }

  /** A long word splits into its first `MaxWordLength` code points and the rest. */
  lemma LongWordSplit(w: seq<int>)
    requires ValidWord(w) && MaxWordLength <= |w|
    ensures var head, tail := w[..MaxWordLength], w[MaxWordLength..];
      && ValidWord(head) && ValidWord(tail)
      && EncodeWord(w) == EncodeWord(head) + EncodeWord(tail)
  {
    var head, tail := w[..MaxWordLength], w[MaxWordLength..];
    ValidSlices(w, MaxWordLength);
    EncodeWordAppend(head, tail);
    assert head + tail == w;
  }

  lemma ValidSlices(w: seq<int>, k: int)
    requires ValidWord(w) && 0 <= k <= |w|
    ensures ValidWord(w[..k]) && ValidWord(w[k..])
  {
    forall j | 0 <= j < |w[..k]| ensures ValidCodePoint(w[..k][j]) {
      assert w[..k][j] == w[j];
    }
    forall j | 0 <= j < |w[k..]| ensures ValidCodePoint(w[k..][j]) {
      assert w[k..][j] == w[k + j];
    }
  }

  /** A long entry: its flags byte, the first `MaxWordLength` code points, then the rest and the terminator. */
  lemma LongEntryParts(dict: seq<Byte>, pos: int, t: Target, hasNext: bool)
    requires ValidTarget(t) && MaxWordLength <= |t.word| && At(dict, pos, EncodeEntry(t, hasNext))
    ensures var head, tail := t.word[..MaxWordLength], t.word[MaxWordLength..];
      && ValidWord(head) && ValidWord(tail)
      && dict[pos] == AttributeFlags(t.freq, hasNext)
      && At(dict, pos + 1, EncodeWord(head))
      && At(dict, pos + 1 + |EncodeWord(head)|, EncodeWord(tail) + [CharacterArrayTerminator])
  {
    var head, tail := t.word[..MaxWordLength], t.word[MaxWordLength..];
    EntryParts(dict, pos, t, hasNext);
    LongWordSplit(t.word);
    AtSplit(dict, pos + 1, EncodeWord(head), EncodeWord(tail));
    AtSnoc(dict, pos + 1 + |EncodeWord(head)|, EncodeWord(tail), CharacterArrayTerminator);
  }

  lemma AtSnoc(dict: seq<Byte>, pos: int, bytes: seq<Byte>, b: Byte)
    requires At(dict, pos, bytes) && pos + |bytes| < |dict| && dict[pos + |bytes|] == b
    ensures At(dict, pos, bytes + [b])
  {
    assert dict[pos..pos + |bytes| + 1] == dict[pos..pos + |bytes|] + [b];
  }

  lemma ShortTargetsTail(ts: seq<Target>)
    requires ShortTargets(ts) && ts != []
    ensures ShortTargets(ts[1..])
  {
    forall j | 0 <= j < |ts[1..]| ensures ValidTarget(ts[1..][j]) && |ts[1..][j].word| < MaxWordLength {
      assert ts[1..][j] == ts[j + 1];
    }
  }

  /**
   * Where the entries of a written list begin: offset `j` is the start of
   * entry `j`, and the last offset is just past the list.
   */
  function EntryOffsets(pos: int, ts: seq<Target>): (ps: seq<int>)
    requires ValidTargets(ts)
    ensures |ps| == |ts| + 1 && ps[0] == pos && ps[|ts|] == pos + |EncodeList(ts)|
    decreases |ts|
  {
    if ts == [] then [pos]
    else [pos] + EntryOffsets(pos + |EncodeEntry(ts[0], |ts| > 1)|, ts[1..])
  }

  /**
   * The call of the iterator at offset `ps[j]` yields `ts[j]`, moves the
   * cursor to `ps[j + 1]` and reports a next target exactly when one remains.
   */
  predicate StepAt(dict: seq<Byte>, ps: seq<int>, ts: seq<Target>, j: int)
    requires |ps| == |ts| + 1 && 0 <= j < |ts|
  {
    && TargetReadable(dict, ps[j])
    && NextShortcutTarget(dict, ps[j]) == Step(ts[j], Cursor(ps[j + 1], j + 1 < |ts|))
  }

  /** The calls of the iterator from the offsets `ps` yield the targets `ts`, one by one. */
  predicate DecodesAt(dict: seq<Byte>, ps: seq<int>, ts: seq<Target>)
  {
    |ps| == |ts| + 1 && forall j :: 0 <= j < |ts| ==> StepAt(dict, ps, ts, j)
  }

  /**
   * Entry `j` of a list is written at offset `ps[j]`, with a short word and
   * the has-next bit set exactly when an entry follows, and ends at `ps[j + 1]`.
   */
  predicate EntryAt(dict: seq<Byte>, ps: seq<int>, ts: seq<Target>, j: int)
    requires |ps| == |ts| + 1 && 0 <= j < |ts|
  {
    && ValidTarget(ts[j]) && |ts[j].word| < MaxWordLength
    && At(dict, ps[j], EncodeEntry(ts[j], j + 1 < |ts|))
    && ps[j + 1] == ps[j] + |EncodeEntry(ts[j], j + 1 < |ts|)|
  }

  predicate EntriesAt(dict: seq<Byte>, ps: seq<int>, ts: seq<Target>)
  {
    |ps| == |ts| + 1 && forall j :: 0 <= j < |ts| ==> EntryAt(dict, ps, ts, j)
  }

  /** A first entry at `ps[0]` followed by the entries of the rest. */
  lemma EntriesAtCons(dict: seq<Byte>, ps: seq<int>, ts: seq<Target>, tail: seq<int>)
    requires 0 < |ts| && |ps| == |ts| + 1 && ps[1..] == tail
    requires EntryAt(dict, ps, ts, 0) && EntriesAt(dict, tail, ts[1..])
    ensures EntriesAt(dict, ps, ts)
  {
    forall j | 0 < j < |ts| ensures EntryAt(dict, ps, ts, j) {
      assert EntryAt(dict, tail, ts[1..], j - 1);
      assert tail[j - 1] == ps[j] && tail[j] == ps[j + 1] && ts[1..][j - 1] == ts[j];
    }
  }

  /** A written list of short targets is its entries, one after the other, at its offsets. */
  lemma {:induction false} ListEntries(dict: seq<Byte>, pos: int, ts: seq<Target>)
    requires ShortTargets(ts) && At(dict, pos, EncodeList(ts))
    ensures EntriesAt(dict, EntryOffsets(pos, ts), ts)
    decreases |ts|
  {
    if ts != [] {
      var entry := EncodeEntry(ts[0], |ts| > 1);
      var ps, tail := EntryOffsets(pos, ts), EntryOffsets(pos + |entry|, ts[1..]);
      ShortTargetsTail(ts);
      AtSplit(dict, pos, entry, EncodeList(ts[1..]));
      ListEntries(dict, pos + |entry|, ts[1..]);
      assert ps[1..] == tail;
      assert EntryAt(dict, ps, ts, 0);
      EntriesAtCons(dict, ps, ts, tail);
    }
  }

  /** Written entries decode one by one back to their targets. */
  lemma EntriesDecode(dict: seq<Byte>, ps: seq<int>, ts: seq<Target>)
    requires EntriesAt(dict, ps, ts)
    ensures DecodesAt(dict, ps, ts)
  {
    forall j | 0 <= j < |ts| ensures StepAt(dict, ps, ts, j) {
      assert EntryAt(dict, ps, ts, j);
      EntryDecodes(dict, ps[j], ts[j], j + 1 < |ts|);
    }
  }

  /**
   * Started on entry `j` with a next target reported exactly when one
   * remains, `e - j` calls yield the targets `j` to `e - 1` and stop on
   * entry `e`, again reporting a next target exactly when one remains.
   */
  lemma {:induction false} RunDecodes(dict: seq<Byte>, ps: seq<int>, ts: seq<Target>, j: nat, e: nat)
    requires DecodesAt(dict, ps, ts) && j <= e <= |ts|
    ensures RunReadable(dict, ps[j], e - j)
    ensures Run(dict, Cursor(ps[j], j < |ts|), e - j) == Trace(ts[j..e], Cursor(ps[e], e < |ts|))
    decreases e - j
  {
    if j < e {
      assert StepAt(dict, ps, ts, j);
      RunDecodes(dict, ps, ts, j + 1, e);
      assert ts[j..e] == [ts[j]] + ts[j + 1..e];
    }
  }

  /**
   * A node whose list decodes from offsets that start just past the length
   * header, with the shortcut flag set exactly when the list is not empty:
   * the first `k` calls of its iterator yield the first `k` targets and stop
   * on entry `k`.
   */
  lemma IteratorDecodes(ta: TerminalAttributes, ps: seq<int>, ts: seq<Target>, k: nat)
    requires DecodesAt(ta.dict, ps, ts) && ps[0] == ta.startPos + ShortcutListSizeSize
    requires HasShortcutTargets(ta.flags) <==> |ts| > 0
    requires k <= |ts|
    ensures RunReadable(ta.dict, ta.ShortcutStart().pos, k)
    ensures Run(ta.dict, ta.ShortcutStart(), k) == Trace(ts[..k], Cursor(ps[k], k < |ts|))
  {
    assert ta.ShortcutStart() == Cursor(ps[0], 0 < |ts|);
    RunDecodes(ta.dict, ps, ts, 0, k);
    assert ts[0..k] == ts[..k];
  }

  /** The list written behind a header sits just past it. */
  lemma ListAfterHeader(dict: seq<Byte>, pre: seq<Byte>, header: seq<Byte>, list: seq<Byte>, rest: seq<Byte>)
    requires dict == pre + header + list + rest
    ensures At(dict, |pre| + |header|, list)
  {
    assert dict[|pre| + |header|..|pre| + |header| + |list|] == list;
  }

  /**
   * A terminal node whose shortcut list was written behind a length header
   * of any content: the first `k` calls of the iterator it hands out yield
   * the first `k` written targets, in order, and leave the cursor on entry
   * `k`, reporting a next target exactly when some remain.  The header is
   * never read.
   */
  lemma ShortcutListPrefix(ta: TerminalAttributes, pre: seq<Byte>, header: seq<Byte>, ts: seq<Target>, rest: seq<Byte>, k: nat)
    requires ShortTargets(ts) && |header| == ShortcutListSizeSize
    requires ta.dict == pre + header + EncodeList(ts) + rest && ta.startPos == |pre|
    requires HasShortcutTargets(ta.flags) <==> |ts| > 0
    requires k <= |ts|
    ensures RunReadable(ta.dict, ta.ShortcutStart().pos, k)
    ensures Run(ta.dict, ta.ShortcutStart(), k) ==
      Trace(ts[..k], Cursor(EntryOffsets(|pre| + ShortcutListSizeSize, ts)[k], k < |ts|))
  {
    var start := |pre| + ShortcutListSizeSize;
    ListAfterHeader(ta.dict, pre, header, EncodeList(ts), rest);
    ListEntries(ta.dict, start, ts);
    EntriesDecode(ta.dict, EntryOffsets(start, ts), ts);
    IteratorDecodes(ta, EntryOffsets(start, ts), ts, k);
  }

  /**
   * Exhausting that iterator: one call per written target yields exactly
   * the targets, then it reports no next target with the cursor just past
   * the list, whatever follows.
   */
  lemma ShortcutListDecodes(ta: TerminalAttributes, pre: seq<Byte>, header: seq<Byte>, ts: seq<Target>, rest: seq<Byte>)
    requires ShortTargets(ts) && |header| == ShortcutListSizeSize
    requires ta.dict == pre + header + EncodeList(ts) + rest && ta.startPos == |pre|
    requires HasShortcutTargets(ta.flags) <==> |ts| > 0
    ensures RunReadable(ta.dict, ta.ShortcutStart().pos, |ts|)
    ensures Run(ta.dict, ta.ShortcutStart(), |ts|) ==
      Trace(ts, Cursor(|pre| + ShortcutListSizeSize + |EncodeList(ts)|, false))
  {
    ShortcutListPrefix(ta, pre, header, ts, rest, |ts|);
    assert ts[..|ts|] == ts;
  }

  /** The targets of the example below: "ok" with weight 12, then "okay" with weight 8. */
  function ExampleTargets(): (ts: seq<Target>)
    ensures ShortTargets(ts)
  {
    [Target([0x6F, 0x6B], 12), Target([0x6F, 0x6B, 0x61, 0x79], 8)]
  }

  /** How the writer lays out the example list, and where its entries begin behind a two-byte header. */
  lemma ExampleLayout()
    ensures EncodeList(ExampleTargets()) == [0x8C, 0x6F, 0x6B, 0x1F, 0x08, 0x6F, 0x6B, 0x61, 0x79, 0x1F]
    ensures EntryOffsets(2, ExampleTargets()) == [2, 6, 12]
  {
    var ts := ExampleTargets();
    assert EncodeEntry(ts[1], false) == [0x08, 0x6F, 0x6B, 0x61, 0x79, 0x1F];
    assert EncodeList(ts[1..]) == EncodeEntry(ts[1], false);
    assert EncodeEntry(ts[0], true) == [0x8C, 0x6F, 0x6B, 0x1F];
  }

  /** The example node: the list written behind a two-byte header at the start of the buffer. */
  lemma ExampleNode(ta: TerminalAttributes)
    requires ta == TerminalAttributes(
      [0x00, 0x0C, 0x8C, 0x6F, 0x6B, 0x1F, 0x08, 0x6F, 0x6B, 0x61, 0x79, 0x1F], 0x08, 0)
    ensures ta.dict == [] + [0x00, 0x0C] + EncodeList(ExampleTargets()) + []
    ensures ta.startPos == 0 && HasShortcutTargets(ta.flags)
  {
    ExampleLayout();
  }

  /**
   * A node carrying "ok" (weight 12, has-next set) then "okay" (weight 8):
   * the first call yields "ok" and leaves a next target.
   */
  lemma ExampleFirstCall(ta: TerminalAttributes)
    requires ta == TerminalAttributes(
      [0x00, 0x0C, 0x8C, 0x6F, 0x6B, 0x1F, 0x08, 0x6F, 0x6B, 0x61, 0x79, 0x1F], 0x08, 0)
    ensures RunReadable(ta.dict, ta.ShortcutStart().pos, 1)
    ensures Run(ta.dict, ta.ShortcutStart(), 1) == Trace([Target([0x6F, 0x6B], 12)], Cursor(6, true))
  {
    var ts := ExampleTargets();
    ExampleNode(ta);
    ExampleLayout();
    ShortcutListPrefix(ta, [], [0x00, 0x0C], ts, [], 1);
    assert ts[..1] == [ts[0]];
  }

  /** The second call on that node yields "okay" and exhausts the iterator just past the list. */
  lemma ExampleExhausted(ta: TerminalAttributes)
    requires ta == TerminalAttributes(
      [0x00, 0x0C, 0x8C, 0x6F, 0x6B, 0x1F, 0x08, 0x6F, 0x6B, 0x61, 0x79, 0x1F], 0x08, 0)
    ensures RunReadable(ta.dict, ta.ShortcutStart().pos, 2)
    ensures Run(ta.dict, ta.ShortcutStart(), 2) ==
      Trace([Target([0x6F, 0x6B], 12), Target([0x6F, 0x6B, 0x61, 0x79], 8)], Cursor(12, false))
  {
    ExampleNode(ta);
    ExampleLayout();
    ShortcutListDecodes(ta, [], [0x00, 0x0C], ExampleTargets(), []);
  }
}
