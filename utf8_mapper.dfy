/** Conversion between character offsets and UTF-8 byte offsets in one text,
    through checkpoints recorded every `checkpointInterval` characters. */
module Utf8Mapper {
  import opened Utf8

  datatype Option<T> = None | Some(value: T)

  /** One entry of the checkpoint dictionary: a byte offset and the character
      offset it stands for. */
  datatype Checkpoint = Checkpoint(bytePos: int, charPos: int)

  // ---------------------------------------------------------------------------
  // The checkpoint dictionary: a dictionary from byte offsets to character
  // offsets that remembers insertion order, as a sequence of entries.
  // ---------------------------------------------------------------------------

  /** `d[key]`, or None when `key` is absent. */
  function Lookup(d: seq<Checkpoint>, key: int): (r: Option<int>)
    ensures r.None? <==> forall j :: 0 <= j < |d| ==> d[j].bytePos != key
    ensures r.Some? ==> exists j :: 0 <= j < |d| && d[j] == Checkpoint(key, r.value)
  {
    if |d| == 0 then None
    else if d[0].bytePos == key then Some(d[0].charPos)
    else Lookup(d[1..], key)
  }

  /** `d[key] = value`: an existing entry for `key` keeps its place and takes
      the new value; a new key goes at the end. */
  function DictSet(d: seq<Checkpoint>, key: int, value: int): (r: seq<Checkpoint>)
    ensures Lookup(r, key) == Some(value)
    ensures forall k :: k != key ==> Lookup(r, k) == Lookup(d, k)
    ensures (forall j :: 0 <= j < |d| ==> d[j].bytePos != key) ==> r == d + [Checkpoint(key, value)]
  {
    if |d| == 0 then [Checkpoint(key, value)]
    else if d[0].bytePos == key then [Checkpoint(key, value)] + d[1..]
    else [d[0]] + DictSet(d[1..], key, value)
  }

  /** Assigning to a key already present replaces its first entry in place:
      the order of the dictionary does not change. */
  lemma {:induction false} DictSetExisting(d: seq<Checkpoint>, key: int, value: int, j: int)
    requires 0 <= j < |d| && d[j].bytePos == key
    requires forall i :: 0 <= i < j ==> d[i].bytePos != key
    ensures DictSet(d, key, value) == d[j := Checkpoint(key, value)]
    decreases j
  {
    var e := Checkpoint(key, value);
    UpdateAtHead(d, j, e);
    if j > 0 {
      DictSetExisting(d[1..], key, value, j - 1);
    }
  }

  /** Replacing entry `j` of a non-empty sequence, seen from its first entry. */
  lemma UpdateAtHead(d: seq<Checkpoint>, j: int, e: Checkpoint)
    requires 0 <= j < |d|
    ensures j == 0 ==> d[j := e] == [e] + d[1..]
    ensures j > 0 ==> d[j := e] == [d[0]] + d[1..][j - 1 := e]
  {
    if j == 0 {
      assert d[j := e] == [e] + d[1..];
    } else {
      assert d[j := e] == [d[0]] + d[1..][j - 1 := e];
    }
  }

  // ---------------------------------------------------------------------------
  // What construction records.
  // ---------------------------------------------------------------------------

  /** The checkpoints recorded while the first `i` characters are scanned: one
      for every character offset that is a multiple of `interval`. */
  function Marks(text: string, interval: int, i: int): seq<Checkpoint>
    requires interval > 0 && 0 <= i <= |text|
  {
    if i == 0 then []
    else Marks(text, interval, i - 1)
         + (if (i - 1) % interval == 0 then [Checkpoint(PrefixBytes(text, i - 1), i - 1)] else [])
  }

  /** The whole checkpoint dictionary after construction: the interval marks
      followed by the end of the text. */
  function Checkpoints(text: string, interval: int): seq<Checkpoint>
    requires interval > 0
  {
    Marks(text, interval, |text|) + [Checkpoint(|Encode(text)|, |text|)]
  }

  /** Every mark lies before character `i`, at a multiple of `interval`, and
      maps its character offset's UTF-8 prefix length to it. */
  lemma {:induction false} MarksOnCurve(text: string, interval: int, i: int)
    requires interval > 0 && 0 <= i <= |text|
    ensures forall j :: 0 <= j < |Marks(text, interval, i)| ==>
      var m := Marks(text, interval, i)[j];
      0 <= m.charPos < i && m.charPos % interval == 0 && m.bytePos == PrefixBytes(text, m.charPos)
    decreases i
  {
    if i > 0 {
      MarksOnCurve(text, interval, i - 1);
    }
  }

  /** Scanning character `i` records `PrefixBytes(text, i) -> i` when `i` is
      a multiple of the interval: the dictionary assignment always adds a new
      key, because every earlier key is a smaller byte offset. */
  lemma MarksExtend(text: string, interval: int, i: int)
    requires interval > 0 && 0 <= i < |text|
    ensures Marks(text, interval, i + 1) ==
      if i % interval == 0 then DictSet(Marks(text, interval, i), PrefixBytes(text, i), i)
      else Marks(text, interval, i)
  {
    var m := Marks(text, interval, i);
    MarksOnCurve(text, interval, i);
    forall j | 0 <= j < |m|
      ensures m[j].bytePos != PrefixBytes(text, i)
    {
      PrefixBytesGrowth(text, m[j].charPos, i);
    }
  }

  /** The final assignment for the end of the text adds a new key too. */
  lemma CheckpointsFromMarks(text: string, interval: int)
    requires interval > 0
    ensures Checkpoints(text, interval) ==
      DictSet(Marks(text, interval, |text|), |Encode(text)|, |text|)
  {
    var m := Marks(text, interval, |text|);
    MarksOnCurve(text, interval, |text|);
    assert text[..|text|] == text;
    forall j | 0 <= j < |m|
      ensures m[j].bytePos != |Encode(text)|
    {
      PrefixBytesGrowth(text, m[j].charPos, |text|);
    }
  }

  /** Every checkpoint maps the UTF-8 length of a prefix of the text to the
      length of that prefix, at a multiple of the interval or at the end. */
  lemma CheckpointsOnCurve(text: string, interval: int)
    requires interval > 0
    ensures forall j :: 0 <= j < |Checkpoints(text, interval)| ==>
      var cp := Checkpoints(text, interval)[j];
      && 0 <= cp.charPos <= |text|
      && cp.bytePos == PrefixBytes(text, cp.charPos)
      && (cp.charPos % interval == 0 || cp.charPos == |text|)
  {
    MarksOnCurve(text, interval, |text|);
    assert text[..|text|] == text;
  }

  /** Checkpoints come in strictly ascending order of character offset, and so
      of byte offset. */
  lemma {:induction false} MarksAscending(text: string, interval: int, i: int)
    requires interval > 0 && 0 <= i <= |text|
    ensures forall j, l :: 0 <= j < l < |Marks(text, interval, i)| ==>
      Marks(text, interval, i)[j].charPos < Marks(text, interval, i)[l].charPos
    decreases i
  {
    if i > 0 {
      MarksAscending(text, interval, i - 1);
      MarksOnCurve(text, interval, i - 1);
    }
  }

  lemma CheckpointsAscending(text: string, interval: int)
    requires interval > 0
    ensures forall j, l :: 0 <= j < l < |Checkpoints(text, interval)| ==>
      && Checkpoints(text, interval)[j].charPos < Checkpoints(text, interval)[l].charPos
      && Checkpoints(text, interval)[j].bytePos < Checkpoints(text, interval)[l].bytePos
  {
    var cps := Checkpoints(text, interval);
    MarksAscending(text, interval, |text|);
    MarksOnCurve(text, interval, |text|);
    CheckpointsOnCurve(text, interval);
    forall j, l | 0 <= j < l < |cps|
      ensures cps[j].charPos < cps[l].charPos && cps[j].bytePos < cps[l].bytePos
    {
      PrefixBytesGrowth(text, cps[j].charPos, cps[l].charPos);
    }
  }

  /** The mark for a multiple `c` of the interval is recorded once `c` has
      been scanned. */
  lemma {:induction false} MarkRecorded(text: string, interval: int, i: int, c: int)
    requires interval > 0 && 0 <= c < i <= |text| && c % interval == 0
    ensures Checkpoint(PrefixBytes(text, c), c) in Marks(text, interval, i)
    decreases i
  {
    if c < i - 1 {
      MarkRecorded(text, interval, i - 1, c);
    }
  }

  /** In a dictionary with strictly ascending keys, an entry is what lookup
      of its key finds. */
  lemma LookupAscending(d: seq<Checkpoint>, j: int)
    requires 0 <= j < |d|
    requires forall a, b :: 0 <= a < b < |d| ==> d[a].bytePos < d[b].bytePos
    ensures Lookup(d, d[j].bytePos) == Some(d[j].charPos)
  {
    var r := Lookup(d, d[j].bytePos);
    var w :| 0 <= w < |d| && d[w] == Checkpoint(d[j].bytePos, r.value);
    assert w == j;
  }

  /** After construction, every character offset `c` that is a multiple of the
      interval (the end of the text included) is reachable from its UTF-8
      byte offset. */
  lemma CheckpointAtInterval(text: string, interval: int, c: int)
    requires interval > 0 && 0 <= c <= |text| && c % interval == 0
    ensures Lookup(Checkpoints(text, interval), PrefixBytes(text, c)) == Some(c)
  {
    var cps := Checkpoints(text, interval);
    CheckpointsAscending(text, interval);
    if c < |text| {
      MarkRecorded(text, interval, |text|, c);
      var j :| 0 <= j < |Marks(text, interval, |text|)| && Marks(text, interval, |text|)[j] == Checkpoint(PrefixBytes(text, c), c);
      assert cps[j] == Checkpoint(PrefixBytes(text, c), c);
      LookupAscending(cps, j);
    } else {
      assert text[..c] == text;
      LookupAscending(cps, |cps| - 1);
    }
  }

  /** After construction the end of the text is always recorded, and an empty
      text has exactly the checkpoint 0 -> 0. */
  lemma CheckpointAtEnd(text: string, interval: int)
    requires interval > 0
    ensures Lookup(Checkpoints(text, interval), |Encode(text)|) == Some(|text|)
    ensures |text| == 0 ==> Checkpoints(text, interval) == [Checkpoint(0, 0)]
  {
    CheckpointsAscending(text, interval);
    LookupAscending(Checkpoints(text, interval), |Checkpoints(text, interval)| - 1);
  }

  // ---------------------------------------------------------------------------
  // What the two queries compute.
  // ---------------------------------------------------------------------------

  /** The UTF-8 offset of character `c`, with `c` first clamped into the text. */
  function ByteOffsetOf(text: string, c: int): nat {
    PrefixBytes(text, if c < 0 then 0 else if c > |text| then |text| else c)
  }

  /** The first character offset at or after `from` whose UTF-8 offset reaches
      byte `b`, or the end of the text when none does. */
  function FirstReaching(text: string, b: int, from: int): (c: int)
    requires 0 <= from <= |text|
    ensures from <= c <= |text|
    ensures forall i :: from <= i < c ==> PrefixBytes(text, i) < b
    ensures c < |text| ==> b <= PrefixBytes(text, c)
    decreases |text| - from
  {
    if from == |text| || b <= PrefixBytes(text, from) then from
    else FirstReaching(text, b, from + 1)
  }

  /** The smallest character offset whose UTF-8 offset is at least `b`, capped
      at the length of the text: a byte offset inside a multi-byte character
      rounds up to the next character. */
  function CharOffsetOf(text: string, b: int): (c: nat)
    ensures c <= |text|
    ensures forall i :: 0 <= i < c ==> PrefixBytes(text, i) < b
    ensures c < |text| ==> b <= PrefixBytes(text, c)
  {
    FirstReaching(text, b, 0)
  }

  /** What `char_to_byte` returns: the argument itself on ASCII text, otherwise
      the clamped UTF-8 offset. */
  function MappedByte(text: string, c: int): int {
    if IsAscii(text) then c else ByteOffsetOf(text, c)
  }

  /** What `byte_to_char` returns: the argument itself on ASCII text, otherwise
      the first character reaching it. */
  function MappedChar(text: string, b: int): int {
    if IsAscii(text) then b else CharOffsetOf(text, b)
  }

  /** A prefix one character longer is ASCII exactly when the shorter one is
      and the added character is. */
  lemma AsciiPrefixStep(text: string, i: int)
    requires 0 <= i < |text|
    ensures IsAscii(text[..i + 1]) <==> IsAscii(text[..i]) && text[i] as int <= 0x7F
  {
    assert text[..i + 1] == text[..i] + [text[i]];
  }

  /** Starting the search past characters that all fall short of `b` changes
      nothing. */
  lemma {:induction false} FirstReachingSkip(text: string, b: int, from: int)
    requires 0 <= from <= |text|
    requires forall i :: 0 <= i < from ==> PrefixBytes(text, i) < b
    ensures FirstReaching(text, b, from) == CharOffsetOf(text, b)
    decreases from
  {
    if from > 0 {
      FirstReachingSkip(text, b, from - 1);
    }
  }

  /** On ASCII text every character takes one byte. */
  lemma AsciiPrefixBytes(text: string, x: int)
    requires IsAscii(text) && 0 <= x <= |text|
    ensures PrefixBytes(text, x) == x
  {
    assert IsAscii(text[..x]) by {
      assert forall i :: 0 <= i < x ==> text[..x][i] == text[i];
    }
    AsciiIffOneBytePerChar(text[..x]);
  }

  /** On ASCII text the identity fast paths agree with the general
      computation for every offset inside the text. */
  lemma AsciiFastPath(text: string, x: int)
    requires IsAscii(text) && 0 <= x <= |text|
    ensures ByteOffsetOf(text, x) == x
    ensures CharOffsetOf(text, x) == x
  {
    AsciiPrefixBytes(text, x);
    var c := CharOffsetOf(text, x);
    if c < x {
      AsciiPrefixBytes(text, c);
    }
  }

  /** For every offset inside the text, `char_to_byte` is the UTF-8 length of
      the text before it. */
  lemma CharToByteIsPrefixLength(text: string, c: int)
    requires 0 <= c <= |text|
    ensures MappedByte(text, c) == |Encode(text[..c])|
  {
    if IsAscii(text) {
      AsciiFastPath(text, c);
    }
  }

  /** `char_to_byte` never decreases as its argument grows. */
  lemma CharToByteMonotone(text: string, c1: int, c2: int)
    requires c1 <= c2
    ensures MappedByte(text, c1) <= MappedByte(text, c2)
  {
    if !IsAscii(text) {
      var k1 := if c1 < 0 then 0 else if c1 > |text| then |text| else c1;
      var k2 := if c2 < 0 then 0 else if c2 > |text| then |text| else c2;
      PrefixBytesGrowth(text, k1, k2);
    }
  }

  /** On text that is not ASCII, `byte_to_char` and `char_to_byte` form a
      Galois connection over the offsets of the text: the character found for
      `b` is at most `c` exactly when `b` does not pass the byte offset of `c`.
      This needs `b` inside the encoding: past its end every `b` maps to the
      end of the text. */
  lemma ByteToCharGalois(text: string, b: int, c: int)
    requires !IsAscii(text) && b <= |Encode(text)| && 0 <= c <= |text|
    ensures MappedChar(text, b) <= c <==> b <= MappedByte(text, c)
  {
    var r := CharOffsetOf(text, b);
    if r <= c {
      if r < |text| {
        PrefixBytesGrowth(text, r, c);
      } else {
        assert text[..c] == text;
      }
    } else {
      assert PrefixBytes(text, c) < b;
    }
  }

  /** Round trip: converting a character offset inside the text to bytes and
      back gives it back. */
  lemma RoundTrip(text: string, c: int)
    requires 0 <= c <= |text|
    ensures MappedChar(text, MappedByte(text, c)) == c
  {
    if IsAscii(text) {
    } else {
      var b := MappedByte(text, c);
      var r := CharOffsetOf(text, b);
      if r < c {
        PrefixBytesGrowth(text, r, c);
        assert false;
      }
    }
  }

  /** A byte offset strictly inside the encoding of character `c` maps to the
      character after it. */
  lemma ByteToCharRoundsUp(text: string, c: int, b: int)
    requires 0 <= c < |text|
    requires PrefixBytes(text, c) < b < PrefixBytes(text, c + 1)
    ensures MappedChar(text, b) == c + 1
  {
    PrefixBytesStep(text, c);
    assert |EncodeChar(text[c])| > 1;
    assert !IsAscii(text);
    var r := CharOffsetOf(text, b);
    if r <= c {
      PrefixBytesGrowth(text, r, c);
    }
  }

  /** On text that is not ASCII, `byte_to_char` never decreases as its
      argument grows, and never leaves the text. */
  lemma ByteToCharMonotone(text: string, b1: int, b2: int)
    requires !IsAscii(text) && b1 <= b2
    ensures 0 <= MappedChar(text, b1) <= MappedChar(text, b2) <= |text|
  {
  }

  /** Python's `(c // k) * k` for `k > 0` (Dafny's `/` rounds down too for a
      positive divisor) is the multiple of `k` at or below `c`. */
  lemma RoundDownToMultiple(c: int, k: int)
    requires k > 0
    ensures (c / k) * k <= c < (c / k) * k + k
  {
    assert c == (c / k) * k + c % k;
  }

  // ---------------------------------------------------------------------------
  // The mapper object.
  // ---------------------------------------------------------------------------

  class Utf8PositionMapper {
    const text: string
    const textBytes: seq<byte>
    const checkpointInterval: int
    var checkpoints: seq<Checkpoint>
    var isAsciiOnly: bool

    /** The state construction leaves behind, which the queries never change. */
    ghost predicate Valid()
      reads this
    {
      && checkpointInterval > 0
      && textBytes == Encode(text)
      && checkpoints == Checkpoints(text, checkpointInterval)
      && isAsciiOnly == IsAscii(text)
    }

    constructor (text: string, checkpointInterval: int := 256)
      requires checkpointInterval > 0
      ensures Valid()
      ensures this.text == text && this.checkpointInterval == checkpointInterval
    {
      this.text := text;
      this.textBytes := Encode(text);
      this.checkpointInterval := checkpointInterval;
      this.checkpoints := [];
      this.isAsciiOnly := true;
      new;
      BuildCheckpoints();
    }

    /** One pass over the characters: a checkpoint at every multiple of the
        interval, the ASCII flag cleared at the first code point above 127,
        and a final checkpoint for the end of the text. */
    method BuildCheckpoints()
      requires checkpointInterval > 0 && checkpoints == [] && isAsciiOnly
      modifies this
      ensures checkpoints == Checkpoints(text, checkpointInterval)
      ensures isAsciiOnly == IsAscii(text)
    {
      var bytePos := 0;
      for charPos := 0 to |text|
        invariant bytePos == PrefixBytes(text, charPos)
        invariant checkpoints == Marks(text, checkpointInterval, charPos)
        invariant isAsciiOnly == IsAscii(text[..charPos])
      {
        var ch := text[charPos];
        MarksExtend(text, checkpointInterval, charPos);
        if charPos % checkpointInterval == 0 {
          checkpoints := DictSet(checkpoints, bytePos, charPos);
        }
        AsciiPrefixStep(text, charPos);
        if ch as int > 127 {
          isAsciiOnly := false;
        }
        PrefixBytesStep(text, charPos);
        bytePos := bytePos + |EncodeChar(ch)|;
      }
      assert text[..|text|] == text;
      CheckpointsFromMarks(text, checkpointInterval);
      checkpoints := DictSet(checkpoints, bytePos, |text|);
    }

    /** The character offset for UTF-8 offset `bytePos`: start from the last
        checkpoint at or before it, then walk forward one character at a time. */
    method ByteToChar(bytePos: int) returns (charPos: int)
      requires Valid()
      ensures charPos == MappedChar(text, bytePos)
    {
      if isAsciiOnly {
        return bytePos;
      }
      var checkpointByte, checkpointChar := 0, 0;
      CheckpointsOnCurve(text, checkpointInterval);
      for i := 0 to |checkpoints|
        invariant 0 <= checkpointChar <= |text|
        invariant checkpointByte == PrefixBytes(text, checkpointChar)
        invariant checkpointChar == 0 || checkpointByte <= bytePos
      {
        var cp := checkpoints[i];
        if cp.bytePos <= bytePos {
          if cp.bytePos > checkpointByte {
            checkpointByte, checkpointChar := cp.bytePos, cp.charPos;
          }
        } else {
          break;
        }
      }
      forall i | 0 <= i < checkpointChar
        ensures PrefixBytes(text, i) < bytePos
      {
        PrefixBytesGrowth(text, i, checkpointChar);
      }
      FirstReachingSkip(text, bytePos, checkpointChar);
      if checkpointByte == bytePos {
        return checkpointChar;
      }
      var currentByte, currentChar := checkpointByte, checkpointChar;
      while currentByte < bytePos && currentChar < |text|
        invariant checkpointChar <= currentChar <= |text|
        invariant currentByte == PrefixBytes(text, currentChar)
        invariant FirstReaching(text, bytePos, currentChar) == CharOffsetOf(text, bytePos)
        decreases |text| - currentChar
      {
        PrefixBytesStep(text, currentChar);
        currentByte := currentByte + |EncodeChar(text[currentChar])|;
        currentChar := currentChar + 1;
      }
      return currentChar;
    }

    /** The UTF-8 offset of character `charPos`: start from the checkpoint at
        the multiple of the interval below it, then add up character widths. */
    method CharToByte(charPos: int) returns (bytePos: int)
      requires Valid()
      ensures bytePos == MappedByte(text, charPos)
    {
      if isAsciiOnly {
        return charPos;
      }
      var bestByte, bestChar := 0, 0;
      var target := (charPos / checkpointInterval) * checkpointInterval;
      RoundDownToMultiple(charPos, checkpointInterval);
      CheckpointsOnCurve(text, checkpointInterval);
      for j := 0 to |checkpoints|
        invariant 0 <= bestChar <= |text|
        invariant bestByte == PrefixBytes(text, bestChar)
        invariant bestChar == 0 || bestChar <= charPos
      {
        if checkpoints[j].charPos == target {
          bestByte, bestChar := checkpoints[j].bytePos, checkpoints[j].charPos;
          break;
        }
      }
      bytePos := bestByte;
      var i := bestChar;
      while i < charPos
        invariant i == bestChar || bestChar < i <= charPos
        invariant bytePos == ByteOffsetOf(text, i)
      {
        if i < |text| {
          PrefixBytesStep(text, i);
          bytePos := bytePos + |EncodeChar(text[i])|;
        }
        i := i + 1;
      }
    }
  }
}
