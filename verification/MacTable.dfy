/** The table of per-chunk tags that follows an encrypted body. */
module MacTable {
  import opened Wrappers
  import opened Bytes
  import opened Chunks
  import opened CounterMode

  const MAC_LEN := 32

  type Tag = s: seq<byte> | |s| == MAC_LEN witness seq(MAC_LEN, _ => 0)

  /** HMAC with SHA-256: a key and a message to a tag. It stays uninterpreted: a parameter. */
  type Hmac = (Key, seq<byte>) -> Tag

  datatype VerifyError = SizeMismatch | TagMismatch(chunk: nat)

  /** The tag binds the chunk's 64-bit index and its bytes. */
  function ChunkTag(hmac: Hmac, macKey: Key, index: nat, chunk: seq<byte>): Tag {
    hmac(macKey, LittleEndian(index, 8) + chunk)
  }

  function IntegrityChunkCount(logicalSize: nat, chunkSize: nat): nat {
    ChunkCount(logicalSize, AtLeastOne(chunkSize))
  }

  function EncryptMacTableLen(logicalSize: nat, chunkSize: nat): nat {
    IntegrityChunkCount(logicalSize, chunkSize) * MAC_LEN
  }

  /** The tags of all chunks of `text`, the first one carrying the index `index`. */
  function Tags(hmac: Hmac, macKey: Key, size: nat, index: nat, text: seq<byte>): (tags: seq<byte>)
    requires size >= 1
    ensures |tags| == ChunkCount(|text|, size) * MAC_LEN
    decreases |text|
  {
    if text == [] then [] else
      var k := FirstChunkLen(|text|, size);
      ChunkTag(hmac, macKey, index, text[..k]) + Tags(hmac, macKey, size, index + 1, text[k..])
  }

  method BuildEncryptMacTable(hmac: Hmac, macKey: Key, chunkSize: nat, ciphertext: seq<byte>)
    returns (out: seq<byte>)
    ensures out == Tags(hmac, macKey, AtLeastOne(chunkSize), 0, ciphertext)
    ensures |out| == EncryptMacTableLen(|ciphertext|, chunkSize)
    ensures forall i :: 0 <= i < ChunkCount(|ciphertext|, AtLeastOne(chunkSize)) ==>
              TagIsAt(hmac, macKey, AtLeastOne(chunkSize), ciphertext, out, i)
  {
    hide ChunkTag, AtLeastOne, Tags, TagIsAt;
    var size := AtLeastOne(chunkSize);
    var offset, index := 0, 0;
    out := [];
    assert ciphertext[0..] == ciphertext;
    while offset < |ciphertext|
      invariant 0 <= offset <= |ciphertext|
      invariant out + Tags(hmac, macKey, size, index, ciphertext[offset..]) == Tags(hmac, macKey, size, 0, ciphertext)
    {
      var k := FirstChunkLen(|ciphertext| - offset, size);
      TagsStep(hmac, macKey, size, index, ciphertext, offset);
      out := out + ChunkTag(hmac, macKey, index, ciphertext[offset..offset + k]);
      offset, index := offset + k, index + 1;
    }
    TagsOfNothing(hmac, macKey, size, index, ciphertext[offset..]);
    assert out == Tags(hmac, macKey, size, 0, ciphertext);
    forall i | 0 <= i < ChunkCount(|ciphertext|, size)
      ensures TagIsAt(hmac, macKey, size, ciphertext, out, i)
    {
      TableTagIsAt(hmac, macKey, size, ciphertext, i);
    }
  }

  /** At place `i` of the table is the HMAC of the 64-bit index `i`, low byte first, and the bytes of chunk `i`. */
  ghost predicate TagIsAt(hmac: Hmac, macKey: Key, size: nat, text: seq<byte>, table: seq<byte>, i: nat) {
    && i * MAC_LEN + MAC_LEN <= |table|
    && table[i * MAC_LEN..i * MAC_LEN + MAC_LEN] == hmac(macKey, LittleEndian(i, 8) + ChunkOf(text, size, i))
  }

  lemma TableTagIsAt(hmac: Hmac, macKey: Key, size: nat, text: seq<byte>, i: nat)
    requires size >= 1 && i < ChunkCount(|text|, size)
    ensures TagIsAt(hmac, macKey, size, text, Tags(hmac, macKey, size, 0, text), i)
  {
    hide LittleEndian, Tags, ChunkOf;
    TagAt(hmac, macKey, size, 0, text, i);
  }

  lemma TagsStep(hmac: Hmac, macKey: Key, size: nat, index: nat, text: seq<byte>, offset: nat)
    requires size >= 1 && offset < |text|
    ensures var k := FirstChunkLen(|text| - offset, size);
            Tags(hmac, macKey, size, index, text[offset..])
            == ChunkTag(hmac, macKey, index, text[offset..offset + k])
               + Tags(hmac, macKey, size, index + 1, text[offset + k..])
  {
    hide ChunkTag;
    var k := FirstChunkLen(|text| - offset, size);
    SliceOfTail(text, offset, 0, k);
    SliceOfTail(text, offset, k, k);
  }

  lemma TagsOfNothing(hmac: Hmac, macKey: Key, size: nat, index: nat, text: seq<byte>)
    requires size >= 1 && text == []
    ensures Tags(hmac, macKey, size, index, text) == []
  {}

  /** The bytes of chunk `i`. */
  function ChunkOf(text: seq<byte>, size: nat, i: nat): seq<byte> {
    BytesFrom(text, i * size, size)
  }

  /** The next `size` bytes from `at` on, or what is left of them. */
  function BytesFrom(text: seq<byte>, at: nat, size: nat): seq<byte> {
    if at <= |text| then text[at..Min(at + size, |text|)] else []
  }

  lemma ChunkStartsInside(text: seq<byte>, size: nat, i: nat)
    requires size >= 1 && i < ChunkCount(|text|, size)
    ensures i * size < |text|
    ensures ChunkOf(text, size, i) == text[i * size..][..FirstChunkLen(|text| - i * size, size)]
  {
    StartsInside(|text|, size, i);
    FrontBytes(text, i * size, size);
  }

  lemma StartsInside(length: nat, size: nat, i: nat)
    requires size >= 1 && i < ChunkCount(length, size)
    ensures i * size < length
  {
    assert length > 0;
    hide ChunkCount;
    ChunkCountBounds(length, size);
    MulMonotone(i, ChunkCount(length, size) - 1, size);
  }

  lemma FrontBytes(text: seq<byte>, at: nat, size: nat)
    requires at < |text|
    ensures BytesFrom(text, at, size) == text[at..][..FirstChunkLen(|text| - at, size)]
  {}

  /** The tag at place `i` of a table is the HMAC of the chunk's 64-bit index, low byte first, and the chunk's bytes. */
  lemma TagAt(hmac: Hmac, macKey: Key, size: nat, index: nat, text: seq<byte>, i: nat)
    requires size >= 1 && i < ChunkCount(|text|, size)
    ensures i * MAC_LEN + MAC_LEN <= |Tags(hmac, macKey, size, index, text)|
    ensures Tags(hmac, macKey, size, index, text)[i * MAC_LEN..i * MAC_LEN + MAC_LEN]
         == hmac(macKey, LittleEndian(index + i, 8) + ChunkOf(text, size, i))
  {
    hide LittleEndian, Tags, ChunkOf, ChunkTag;
    ChunkStartsInside(text, size, i);
    TagsDrop(hmac, macKey, size, index, text, i);
    FrontTag(hmac, macKey, size, index + i, text[i * size..]);
    var tags := Tags(hmac, macKey, size, index, text);
    assert tags[i * MAC_LEN..][..MAC_LEN] == tags[i * MAC_LEN..i * MAC_LEN + MAC_LEN];
  }

  lemma FrontTag(hmac: Hmac, macKey: Key, size: nat, index: nat, text: seq<byte>)
    requires size >= 1 && text != []
    ensures |Tags(hmac, macKey, size, index, text)| >= MAC_LEN
    ensures Tags(hmac, macKey, size, index, text)[..MAC_LEN]
         == hmac(macKey, LittleEndian(index, 8) + text[..FirstChunkLen(|text|, size)])
  {
    hide LittleEndian;
  }

  /** The index of the first chunk of `window` whose stored tag differs from the recomputed one. */
  function FirstMismatch(hmac: Hmac, macKey: Key, size: nat, index: nat, window: seq<byte>, table: seq<byte>)
    : Option<nat>
    requires size >= 1 && |table| == ChunkCount(|window|, size) * MAC_LEN
    decreases |window|
  {
    if window == [] then None else
      var k := FirstChunkLen(|window|, size);
      if table[..MAC_LEN] != ChunkTag(hmac, macKey, index, window[..k]) then Some(index)
      else FirstMismatch(hmac, macKey, size, index + 1, window[k..], table[MAC_LEN..])
  }

  function VerifyWindow(hmac: Hmac, macKey: Key, chunkSize: nat, start: nat, window: seq<byte>, table: seq<byte>)
    : Result<(), VerifyError>
  {
    var size := AtLeastOne(chunkSize);
    if |table| != IntegrityChunkCount(|window|, chunkSize) * MAC_LEN then Err(SizeMismatch)
    else match FirstMismatch(hmac, macKey, size, start / size, window, table)
      case None => Ok(())
      case Some(chunk) => Err(TagMismatch(chunk))
  }

  method VerifyEncryptWindow(hmac: Hmac, macKey: Key, chunkSize: nat, start: nat, window: seq<byte>, table: seq<byte>)
    returns (r: Result<(), VerifyError>)
    ensures r == VerifyWindow(hmac, macKey, chunkSize, start, window, table)
  {
    hide ChunkTag, AtLeastOne;
    var size := AtLeastOne(chunkSize);
    var startChunk := start / size;
    if |table| != IntegrityChunkCount(|window|, chunkSize) * MAC_LEN {
      return Err(SizeMismatch);
    }
    var at, idx := 0, 0;
    while at < |window|
      invariant 0 <= at <= |window|
      invariant idx * MAC_LEN + ChunkCount(|window| - at, size) * MAC_LEN == |table|
      invariant FirstMismatch(hmac, macKey, size, startChunk, window, table)
             == FirstMismatch(hmac, macKey, size, startChunk + idx, window[at..], table[idx * MAC_LEN..])
    {
      var k := FirstChunkLen(|window| - at, size);
      var offset := idx * MAC_LEN;
      var expected := ChunkTag(hmac, macKey, startChunk + idx, window[at..at + k]);
      var actual := table[offset..offset + MAC_LEN];
      SliceOfTail(window, at, 0, k);
      SliceOfTail(table, offset, 0, MAC_LEN);
      if actual != expected {
        return Err(TagMismatch(startChunk + idx));
      }
      at, idx := at + k, idx + 1;
    }
    r := Ok(());
  }

  lemma {:induction false} NoMismatchIffTags(hmac: Hmac, macKey: Key, size: nat, index: nat,
                                             window: seq<byte>, table: seq<byte>)
    requires size >= 1 && |table| == ChunkCount(|window|, size) * MAC_LEN
    ensures FirstMismatch(hmac, macKey, size, index, window, table).None?
            <==> table == Tags(hmac, macKey, size, index, window)
    decreases |window|
  {
    if window != [] {
      var k := FirstChunkLen(|window|, size);
      NoMismatchIffTags(hmac, macKey, size, index + 1, window[k..], table[MAC_LEN..]);
      assert table == table[..MAC_LEN] + table[MAC_LEN..];
    }
  }

  /**
   * Verification accepts a window exactly when the table slice is, byte for byte, the tags
   * recomputed at the window's absolute chunk indices.
   */
  lemma VerifiesExactly(hmac: Hmac, macKey: Key, chunkSize: nat, start: nat, window: seq<byte>, table: seq<byte>)
    ensures VerifyWindow(hmac, macKey, chunkSize, start, window, table).Ok?
            <==> table == Tags(hmac, macKey, AtLeastOne(chunkSize), start / AtLeastOne(chunkSize), window)
  {
    if |table| == IntegrityChunkCount(|window|, chunkSize) * MAC_LEN {
      NoMismatchIffTags(hmac, macKey, AtLeastOne(chunkSize), start / AtLeastOne(chunkSize), window, table);
    }
  }

  /** A reported chunk is the first whose stored tag is wrong. */
  lemma {:induction false} MismatchIsFirst(hmac: Hmac, macKey: Key, size: nat, index: nat,
                                           window: seq<byte>, table: seq<byte>, chunk: nat)
    requires size >= 1 && |table| == ChunkCount(|window|, size) * MAC_LEN
    requires FirstMismatch(hmac, macKey, size, index, window, table) == Some(chunk)
    ensures var good := (chunk - index) * MAC_LEN;
            var tags := Tags(hmac, macKey, size, index, window);
            && index <= chunk && good + MAC_LEN <= |table|
            && table[..good] == tags[..good]
            && table[good..good + MAC_LEN] != tags[good..good + MAC_LEN]
    decreases |window|
  {
    hide ChunkTag;
    var k := FirstChunkLen(|window|, size);
    var tag, tags := ChunkTag(hmac, macKey, index, window[..k]), Tags(hmac, macKey, size, index, window);
    if table[..MAC_LEN] == tag {
      var rest, tail := table[MAC_LEN..], Tags(hmac, macKey, size, index + 1, window[k..]);
      MismatchIsFirst(hmac, macKey, size, index + 1, window[k..], rest, chunk);
      var good := (chunk - index - 1) * MAC_LEN;
      FrontAndSlice(table, tag, rest, good);
      FrontAndSlice(tags, tag, tail, good);
    }
  }

  lemma FrontAndSlice(whole: seq<byte>, front: Tag, rest: seq<byte>, at: nat)
    requires whole == front + rest && at + MAC_LEN <= |rest|
    ensures whole[..at + MAC_LEN] == front + rest[..at]
    ensures whole[at + MAC_LEN..at + 2 * MAC_LEN] == rest[at..at + MAC_LEN]
  {}

  lemma TagsAfterFirst(hmac: Hmac, macKey: Key, size: nat, index: nat, text: seq<byte>)
    requires 1 <= size <= |text|
    ensures |Tags(hmac, macKey, size, index, text)| >= MAC_LEN
    ensures Tags(hmac, macKey, size, index, text)[MAC_LEN..] == Tags(hmac, macKey, size, index + 1, text[size..])
  {}

  /** Dropping `skip` whole chunks drops their tags and moves the index on. */
  lemma {:induction false} TagsDrop(hmac: Hmac, macKey: Key, size: nat, index: nat, text: seq<byte>, skip: nat)
    requires size >= 1 && skip * size <= |text|
    ensures skip * MAC_LEN <= |Tags(hmac, macKey, size, index, text)|
    ensures Tags(hmac, macKey, size, index, text)[skip * MAC_LEN..]
         == Tags(hmac, macKey, size, index + skip, text[skip * size..])
    decreases skip
  {
    hide Tags, ChunkTag;
    var tags := Tags(hmac, macKey, size, index, text);
    if skip == 0 {
      assert text[0..] == text && tags[0..] == tags;
    } else {
      var less := (skip - 1) * size;
      assert skip * size == less + size;
      TagsAfterFirst(hmac, macKey, size, index, text);
      TagsDrop(hmac, macKey, size, index + 1, text[size..], skip - 1);
      SliceOfTail(tags, MAC_LEN, (skip - 1) * MAC_LEN, (skip - 1) * MAC_LEN);
      SliceOfTail(text, size, less, less);
    }
  }

  /** The tags of `keep` whole leading chunks are the leading tags. */
  lemma {:induction false} TagsTake(hmac: Hmac, macKey: Key, size: nat, index: nat, text: seq<byte>, keep: nat)
    requires size >= 1 && keep * size <= |text|
    ensures Tags(hmac, macKey, size, index, text[..keep * size])
         <= Tags(hmac, macKey, size, index, text)
    decreases keep
  {
    hide ChunkTag;
    if keep > 0 {
      var rest, less := text[size..], (keep - 1) * size;
      assert keep * size == less + size;
      TagsTake(hmac, macKey, size, index + 1, rest, keep - 1);
      assert text[..keep * size][size..] == rest[..less];
      assert text[..keep * size][..size] == text[..size];
    }
  }

  /** A window that starts on a chunk boundary and ends on one, or at the end of the body. */
  predicate IsWindow(chunkSize: nat, length: nat, firstChunk: nat, end: nat) {
    var size := AtLeastOne(chunkSize);
    firstChunk * size <= end <= length && (end % size == 0 || end == length)
  }

  function WindowOf(body: seq<byte>, chunkSize: nat, firstChunk: nat, end: nat): seq<byte>
    requires IsWindow(chunkSize, |body|, firstChunk, end)
  {
    body[firstChunk * AtLeastOne(chunkSize)..end]
  }

  /** The part of a body's table that belongs to a window: as many tags as it has chunks, from its first chunk on. */
  function WindowTable(table: seq<byte>, chunkSize: nat, firstChunk: nat, window: seq<byte>): Option<seq<byte>> {
    var from := firstChunk * MAC_LEN;
    var to := from + EncryptMacTableLen(|window|, chunkSize);
    if to <= |table| then Some(table[from..to]) else None
  }

  lemma WindowTableIsTags(hmac: Hmac, macKey: Key, chunkSize: nat, body: seq<byte>, firstChunk: nat, end: nat)
    requires IsWindow(chunkSize, |body|, firstChunk, end)
    ensures var size, window := AtLeastOne(chunkSize), WindowOf(body, chunkSize, firstChunk, end);
            WindowTable(Tags(hmac, macKey, size, 0, body), chunkSize, firstChunk, window)
            == Some(Tags(hmac, macKey, size, firstChunk, window))
  {
    hide Tags, AtLeastOne;
    var size, window := AtLeastOne(chunkSize), WindowOf(body, chunkSize, firstChunk, end);
    TagsDrop(hmac, macKey, size, 0, body, firstChunk);
    WindowTagsArePrefix(hmac, macKey, size, body, firstChunk, end);
    PrefixSlice(Tags(hmac, macKey, size, 0, body), firstChunk * MAC_LEN, Tags(hmac, macKey, size, firstChunk, window));
  }

  /** Every such window of an encrypted body verifies against its part of the body's table, which is there. */
  lemma EveryWindowVerifies(hmac: Hmac, macKey: Key, chunkSize: nat, body: seq<byte>, firstChunk: nat, end: nat)
    requires IsWindow(chunkSize, |body|, firstChunk, end)
    ensures var size, window := AtLeastOne(chunkSize), WindowOf(body, chunkSize, firstChunk, end);
            var part := WindowTable(Tags(hmac, macKey, size, 0, body), chunkSize, firstChunk, window);
            part.Some? && VerifyWindow(hmac, macKey, chunkSize, firstChunk * size, window, part.value).Ok?
  {
    hide Tags, VerifyWindow, AtLeastOne, WindowTable, IsWindow, WindowOf;
    var size, window := AtLeastOne(chunkSize), WindowOf(body, chunkSize, firstChunk, end);
    WindowTableIsTags(hmac, macKey, chunkSize, body, firstChunk, end);
    BlockOf(size, firstChunk, 0);
    VerifiesExactly(hmac, macKey, chunkSize, firstChunk * size, window, Tags(hmac, macKey, size, firstChunk, window));
  }

  lemma PrefixSlice<T>(s: seq<T>, from: nat, prefix: seq<T>)
    requires from <= |s| && prefix <= s[from..]
    ensures from + |prefix| <= |s| && s[from..from + |prefix|] == prefix
  {}

  lemma WindowTagsArePrefix(hmac: Hmac, macKey: Key, size: nat, body: seq<byte>, firstChunk: nat, end: nat)
    requires size >= 1 && firstChunk * size <= end <= |body| && (end % size == 0 || end == |body|)
    ensures Tags(hmac, macKey, size, firstChunk, body[firstChunk * size..end])
         <= Tags(hmac, macKey, size, firstChunk, body[firstChunk * size..])
  {
    hide Tags;
    var start := firstChunk * size;
    if end < |body| {
      WholeChunks(size, firstChunk, end);
      TagsTake(hmac, macKey, size, firstChunk, body[start..], end / size - firstChunk);
      assert body[start..][..end - start] == body[start..end];
    } else {
      assert body[start..end] == body[start..];
    }
  }

  lemma WholeChunks(size: nat, firstChunk: nat, end: nat)
    requires size >= 1 && firstChunk * size <= end && end % size == 0
    ensures firstChunk <= end / size && (end / size - firstChunk) * size == end - firstChunk * size
  {
    MulMonotone(end / size + 1, firstChunk, size);
    assert end / size * size == end;
  }

  /** The message of a tag tells its chunk's index, below 2^64. */
  lemma IndexInMessage(a: nat, b: nat, chunk: seq<byte>, other: seq<byte>)
    requires a < Pow256(8) && b < Pow256(8) && LittleEndian(a, 8) + chunk == LittleEndian(b, 8) + other
    ensures a == b && chunk == other
  {
    hide LittleEndian, FromLittleEndian, Pow256;
    var left, right := LittleEndian(a, 8) + chunk, LittleEndian(b, 8) + other;
    assert left[..8] == LittleEndian(a, 8) && right[..8] == LittleEndian(b, 8);
    assert left[8..] == chunk && right[8..] == other;
    LittleEndianRoundTrip(a, 8);
    LittleEndianRoundTrip(b, 8);
  }

  /**
   * A window verifies against the table made for it at another place only if, for every chunk of it,
   * two different messages have one tag: those with the two indices. So a function without such a pair
   * binds each chunk to its place.
   */
  lemma MovedWindowNeedsCollisions(hmac: Hmac, macKey: Key, chunkSize: nat, start: nat, here: nat, made: nat,
                                   window: seq<byte>, i: nat)
    requires here == start / AtLeastOne(chunkSize) && here != made && i < IntegrityChunkCount(|window|, chunkSize)
    requires here + i < Pow256(8) && made + i < Pow256(8)
    requires VerifyWindow(hmac, macKey, chunkSize, start, window,
                          Tags(hmac, macKey, AtLeastOne(chunkSize), made, window)).Ok?
    ensures var chunk := ChunkOf(window, AtLeastOne(chunkSize), i);
            var message, other := LittleEndian(here + i, 8) + chunk, LittleEndian(made + i, 8) + chunk;
            message != other && hmac(macKey, message) == hmac(macKey, other)
  {
    hide LittleEndian, Tags, ChunkOf, VerifyWindow, Pow256, AtLeastOne;
    var size := AtLeastOne(chunkSize);
    VerifiesExactly(hmac, macKey, chunkSize, start, window, Tags(hmac, macKey, size, made, window));
    TagAt(hmac, macKey, size, here, window, i);
    TagAt(hmac, macKey, size, made, window, i);
    var chunk := ChunkOf(window, size, i);
    if LittleEndian(here + i, 8) + chunk == LittleEndian(made + i, 8) + chunk {
      IndexInMessage(here + i, made + i, chunk, chunk);
    }
  }

  /** The tag binds the bytes as well: a changed chunk verifies only with a collision. */
  lemma ChangedChunkNeedsCollision(hmac: Hmac, macKey: Key, chunkSize: nat, start: nat, here: nat,
                                   window: seq<byte>, was: seq<byte>, i: nat)
    requires here == start / AtLeastOne(chunkSize) && |window| == |was| && i < IntegrityChunkCount(|window|, chunkSize)
    requires here + i < Pow256(8)
    requires ChunkOf(window, AtLeastOne(chunkSize), i) != ChunkOf(was, AtLeastOne(chunkSize), i)
    requires VerifyWindow(hmac, macKey, chunkSize, start, window,
                          Tags(hmac, macKey, AtLeastOne(chunkSize), here, was)).Ok?
    ensures var size := AtLeastOne(chunkSize);
            var message := LittleEndian(here + i, 8) + ChunkOf(window, size, i);
            var other := LittleEndian(here + i, 8) + ChunkOf(was, size, i);
            message != other && hmac(macKey, message) == hmac(macKey, other)
  {
    hide LittleEndian, Tags, ChunkOf, VerifyWindow, Pow256, AtLeastOne;
    var size := AtLeastOne(chunkSize);
    VerifiesExactly(hmac, macKey, chunkSize, start, window, Tags(hmac, macKey, size, here, was));
    TagAt(hmac, macKey, size, here, window, i);
    TagAt(hmac, macKey, size, here, was, i);
    var now, before := ChunkOf(window, size, i), ChunkOf(was, size, i);
    if LittleEndian(here + i, 8) + now == LittleEndian(here + i, 8) + before {
      IndexInMessage(here + i, here + i, now, before);
    }
  }
}
