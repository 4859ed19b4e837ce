/** The chunked WAL segment format of `wal.ts`: header, per-chunk nonces, encryption, decryption. */
module WalCodec {
  import opened Bytes

  const CHUNK_SIZE := 65536
  const STREAMING_THRESHOLD := 1048576
  const TAG_BYTES := 16
  const KEY_BYTES := 32
  const HEADER_SIZE := 36

  type Nonce = n: Bytes | |n| == 24 witness [0, 0, 0, 0, 0, 0, 0, 0, 0, 0, 0, 0, 0, 0, 0, 0, 0, 0, 0, 0, 0, 0, 0, 0]

  /** XChaCha20-Poly1305 under a fixed key: `seal` appends a tag, `open` checks it. */
  datatype Aead = Aead(seal: (Bytes, Nonce, Bytes) -> Bytes, open: (Bytes, Nonce, Bytes) -> Option<Bytes>)

  ghost predicate Lawful(a: Aead) {
    && (forall k, n, p :: |a.seal(k, n, p)| == |p| + TAG_BYTES)
    && (forall k, n, p :: a.open(k, n, a.seal(k, n, p)) == Some(p))
    && (forall k, n, c :: a.open(k, n, c).Some? ==> |c| == |a.open(k, n, c).value| + TAG_BYTES)
  }

  datatype Error = BadKey | TooShort | Truncated(chunk: nat) | TagMismatch(chunk: nat)

  // ----- nonces -----

  /** Xors the index into bytes 16..19 of the base nonce; the index is a 32-bit operand. */
  function ChunkNonce(base: Nonce, index: nat): Nonce {
    base[..16] + Le32(Xor(32, Word32(base, 16), index % TWO_32)) + base[20..]
  }

  lemma WordAt(front: Bytes, word: Bytes, back: Bytes)
    requires |word| == 4
    ensures Word32(front + word + back, |front|) == Word32(word, 0)
  {}

  lemma NonceWord(base: Nonce, index: nat)
    ensures Word32(ChunkNonce(base, index), 16) == Xor(32, Word32(base, 16), index % TWO_32)
  {
    Pow2Of32();
    WordReplaced(base, Xor(32, Word32(base, 16), index % TWO_32));
  }

  lemma WordReplaced(base: Nonce, x: nat)
    requires x < TWO_32
    ensures Word32(base[..16] + Le32(x) + base[20..], 16) == x
  {
    WordAt(base[..16], Le32(x), base[20..]);
    Le32RoundTrip(x);
  }

  lemma XorCancels(w: nat, x: nat, y: nat)
    requires x < TWO_32 && y < TWO_32 && Xor(32, w, x) == Xor(32, w, y)
    ensures x == y
  {
    Pow2Of32();
    XorCommutes(32, w, x);
    XorCommutes(32, w, y);
    XorInvolution(32, x, w);
    XorInvolution(32, y, w);
  }

  /** Two chunks share a nonce exactly when their indices agree modulo 2^32. */
  lemma ChunkNoncesDistinct(base: Nonce, i: nat, j: nat)
    ensures ChunkNonce(base, i) == ChunkNonce(base, j) <==> i % TWO_32 == j % TWO_32
  {
    if ChunkNonce(base, i) == ChunkNonce(base, j) {
      NonceWord(base, i);
      NonceWord(base, j);
      XorCancels(Word32(base, 16), i % TWO_32, j % TWO_32);
    }
  }

  /** A chunk's nonce is the base nonce but for bytes 16 to 19, where the index is xored in, bit by bit. */
  lemma ChunkNonceExactly(base: Nonce, index: nat, k: nat)
    requires index < TWO_32 && k < 32
    ensures ChunkNonce(base, index)[..16] == base[..16] && ChunkNonce(base, index)[20..] == base[20..]
    ensures Bit(Word32(ChunkNonce(base, index), 16), k) <==> Bit(Word32(base, 16), k) != Bit(index, k)
  {
    NonceWord(base, index);
    XorBit(32, Word32(base, 16), index, k);
    Replaces(base, Le32(Xor(32, Word32(base, 16), index)));
  }

  lemma Replaces(base: Nonce, word: Bytes)
    requires |word| == 4
    ensures (base[..16] + word + base[20..])[..16] == base[..16] && (base[..16] + word + base[20..])[20..] == base[20..]
  {
  }

  // ----- format -----

  function Min(a: nat, b: nat): nat { if a < b then a else b }

  function ChunkSize(length: nat): nat {
    if length > STREAMING_THRESHOLD then CHUNK_SIZE else length
  }

  /** How many pieces of at most `size` bytes make up `length` bytes. */
  function Pieces(length: nat, size: nat): nat
    requires length > 0 ==> size > 0
  {
    if length == 0 then 0 else 1 + Pieces(length - Min(size, length), size)
  }

  function TotalChunks(length: nat): nat { Pieces(length, ChunkSize(length)) }

  lemma {:induction false} PiecesOfFullSize(length: nat)
    ensures Pieces(length, CHUNK_SIZE) == (length + CHUNK_SIZE - 1) / CHUNK_SIZE
  {
    if length > CHUNK_SIZE {
      PiecesOfFullSize(length - CHUNK_SIZE);
    }
  }

  lemma OneAndABit(n: nat)
    requires n > 0
    ensures (n + n - 1) / n == 1
  {
    var q := (n + n - 1) / n;
    assert q * n <= n + n - 1 < q * n + n;
  }

  /** `Math.ceil(length / chunkSize)`, the source's formula. */
  lemma TotalChunksIsCeiling(length: nat)
    requires length > 0
    ensures (length + ChunkSize(length) - 1) / ChunkSize(length) == TotalChunks(length)
  {
    if length > STREAMING_THRESHOLD {
      PiecesOfFullSize(length);
    } else {
      OneAndABit(length);
      assert Pieces(length, length) == 1 + Pieces(0, length);
    }
  }

  /** The data cut into pieces of at most `size` bytes, piece n sealed under the n-th nonce. */
  function SealAll(a: Aead, key: Bytes, nonce: nat -> Nonce, data: Bytes, size: nat, i: nat): Bytes
    requires data != [] ==> size > 0
    decreases |data|
  {
    if data == [] then []
    else
      var n := Min(size, |data|);
      a.seal(key, nonce(i), data[..n]) + SealAll(a, key, nonce, data[n..], size, i + 1)
  }

  function Nonces(base: Nonce): nat -> Nonce { (i: nat) => ChunkNonce(base, i) }

  function Header(sizeWord: Bytes, countWord: Bytes, base: Nonce): Bytes {
    sizeWord + countWord + Le32(0) + base
  }

  function Encrypted(a: Aead, key: Bytes, base: Nonce, segment: Bytes): Bytes {
    Header(Le32(ChunkSize(|segment|)), Le32(TotalChunks(|segment|)), base)
    + SealAll(a, key, Nonces(base), segment, ChunkSize(|segment|), 0)
  }

  /** The opened chunks i .. total-1 out of `data`; the last chunk takes whatever is left. */
  function OpenAll(a: Aead, key: Bytes, nonce: nat -> Nonce, data: Bytes, size: nat, i: nat, total: nat)
    : Result<Bytes, Error>
    requires i <= total
    decreases total - i
  {
    if i == total then Ok([])
    else
      var len := if i == total - 1 then |data| else size + TAG_BYTES;
      if len > |data| then Err(Truncated(i))
      else
        match a.open(key, nonce(i), data[..len])
        case None => Err(TagMismatch(i))
        case Some(plain) => Prepend(plain, OpenAll(a, key, nonce, data[len..], size, i + 1, total))
  }

  function Prepend(front: Bytes, r: Result<Bytes, Error>): Result<Bytes, Error> {
    match r
    case Ok(rest) => Ok(front + rest)
    case Err(_) => r
  }

  function Decrypted(a: Aead, key: Bytes, encrypted: Bytes): Result<Bytes, Error> {
    if |key| != KEY_BYTES then Err(BadKey)
    else if |encrypted| < HEADER_SIZE then Err(TooShort)
    else OpenAll(a, key, Nonces(encrypted[12..36]), encrypted[HEADER_SIZE..],
                 Word32(encrypted, 0), 0, Word32(encrypted, 4))
  }

  // ----- round trip -----

  /** Opening what was sealed gives the data back. */
  lemma {:induction false} OpensWhatWasSealed(a: Aead, key: Bytes, nonce: nat -> Nonce, data: Bytes, size: nat, i: nat)
    requires Lawful(a) && (data != [] ==> size > 0)
    ensures OpenAll(a, key, nonce, SealAll(a, key, nonce, data, size, i), size, i, i + Pieces(|data|, size)) == Ok(data)
    decreases |data|
  {
    if data != [] {
      var n := Min(size, |data|);
      var sealed := a.seal(key, nonce(i), data[..n]);
      var rest := SealAll(a, key, nonce, data[n..], size, i + 1);
      OpensWhatWasSealed(a, key, nonce, data[n..], size, i + 1);
      assert (sealed + rest)[..|sealed|] == sealed && (sealed + rest)[|sealed|..] == rest;
      assert data[..n] + data[n..] == data;
      assert a.open(key, nonce(i), sealed) == Some(data[..n]);
      if |data| <= size {
        assert rest == [] && sealed + rest == sealed;
      } else {
        assert |sealed| == size + TAG_BYTES;
        assert Pieces(|data|, size) == 1 + Pieces(|data[n..]|, size) && Pieces(|data[n..]|, size) > 0;
      }
    }
  }

  /** Successful decryption takes one tag per chunk off the data: every byte is read once. */
  lemma {:induction false} OpenedLength(a: Aead, key: Bytes, nonce: nat -> Nonce, data: Bytes, size: nat, i: nat,
                                        total: nat)
    requires Lawful(a) && i < total && OpenAll(a, key, nonce, data, size, i, total).Ok?
    ensures |data| == |OpenAll(a, key, nonce, data, size, i, total).value| + TAG_BYTES * (total - i)
    decreases total - i
  {
    if i < total - 1 {
      OpenedLength(a, key, nonce, data[size + TAG_BYTES..], size, i + 1, total);
    }
  }

  lemma {:induction false} SealedLength(a: Aead, key: Bytes, nonce: nat -> Nonce, data: Bytes, size: nat, i: nat)
    requires Lawful(a) && (data != [] ==> size > 0)
    ensures |SealAll(a, key, nonce, data, size, i)| == |data| + TAG_BYTES * Pieces(|data|, size)
    decreases |data|
  {
    if data != [] {
      SealedLength(a, key, nonce, data[Min(size, |data|)..], size, i + 1);
    }
  }

  lemma HeaderFields(sizeWord: Bytes, countWord: Bytes, base: Nonce, body: Bytes)
    requires |sizeWord| == |countWord| == 4
    ensures var e := Header(sizeWord, countWord, base) + body;
            && |Header(sizeWord, countWord, base)| == HEADER_SIZE
            && e[12..36] == base && e[HEADER_SIZE..] == body
            && Word32(e, 0) == Word32(sizeWord, 0) && Word32(e, 4) == Word32(countWord, 0)
  {}

  /** Reading fewer chunks than were sealed never gives the data back: each missing tag adds bytes. */
  lemma ShortRead(a: Aead, key: Bytes, nonce: nat -> Nonce, data: Bytes, size: nat, read: nat)
    requires Lawful(a) && (data != [] ==> size > 0) && read < Pieces(|data|, size)
    ensures OpenAll(a, key, nonce, SealAll(a, key, nonce, data, size, 0), size, 0, read) != Ok(data)
  {
    var body := SealAll(a, key, nonce, data, size, 0);
    SealedLength(a, key, nonce, data, size, 0);
    if read > 0 && OpenAll(a, key, nonce, body, size, 0, read).Ok? {
      OpenedLength(a, key, nonce, body, size, 0, read);
    }
  }

  lemma DecryptedFields(a: Aead, key: Bytes, base: Nonce, sizeWord: Bytes, countWord: Bytes, body: Bytes)
    requires |key| == KEY_BYTES && |sizeWord| == |countWord| == 4
    ensures Decrypted(a, key, Header(sizeWord, countWord, base) + body)
            == OpenAll(a, key, Nonces(base), body, Word32(sizeWord, 0), 0, Word32(countWord, 0))
  {
    HeaderFields(sizeWord, countWord, base, body);
  }

  lemma CountModulo(a: Aead, key: Bytes, nonce: nat -> Nonce, data: Bytes, size: nat)
    requires Lawful(a) && (data != [] ==> size > 0)
    ensures
      OpenAll(a, key, nonce, SealAll(a, key, nonce, data, size, 0), size, 0, Pieces(|data|, size) % TWO_32) == Ok(data)
      <==> Pieces(|data|, size) < TWO_32
  {
    if Pieces(|data|, size) < TWO_32 {
      OpensWhatWasSealed(a, key, nonce, data, size, 0);
    } else {
      ShortRead(a, key, nonce, data, size, Pieces(|data|, size) % TWO_32);
    }
  }

  lemma RoundTripWords(a: Aead, key: Bytes, base: Nonce, segment: Bytes, size: nat, sizeWord: Bytes, countWord: Bytes)
    requires Lawful(a) && |key| == KEY_BYTES && |sizeWord| == |countWord| == 4 && (segment != [] ==> size > 0)
    requires Word32(sizeWord, 0) == size && Word32(countWord, 0) == Pieces(|segment|, size) % TWO_32
    ensures
      Decrypted(a, key, Header(sizeWord, countWord, base) + SealAll(a, key, Nonces(base), segment, size, 0))
      == Ok(segment)
      <==> Pieces(|segment|, size) < TWO_32
  {
    DecryptedFields(a, key, base, sizeWord, countWord, SealAll(a, key, Nonces(base), segment, size, 0));
    CountModulo(a, key, Nonces(base), segment, size);
  }

  lemma HeaderWords(length: nat)
    ensures Word32(Le32(ChunkSize(length)), 0) == ChunkSize(length)
    ensures Word32(Le32(TotalChunks(length)), 0) == TotalChunks(length) % TWO_32
  {
    Le32RoundTrip(ChunkSize(length));
    Le32RoundTrip(TotalChunks(length));
  }

  /** Round trip, exactly: decryption undoes encryption if and only if the chunk count fits its header word. */
  lemma RoundTrip(a: Aead, key: Bytes, base: Nonce, segment: Bytes)
    requires Lawful(a) && |key| == KEY_BYTES
    ensures Decrypted(a, key, Encrypted(a, key, base, segment)) == Ok(segment) <==> TotalChunks(|segment|) < TWO_32
  {
    HeaderWords(|segment|);
    var size := ChunkSize(|segment|);
    var sizeWord, countWord := Le32(size), Le32(TotalChunks(|segment|));
    RoundTripWords(a, key, base, segment, size, sizeWord, countWord);
  }

  // ----- the bytes of the format -----

  /** k times n, as a sum. */
  function Times(k: nat, n: nat): nat { if k == 0 then 0 else n + Times(k - 1, n) }

  lemma {:induction false} TimesIsProduct(k: nat, n: nat)
    ensures Times(k, n) == k * n
  {
    if k > 0 {
      TimesIsProduct(k - 1, n);
      assert (k - 1) * n == k * n - n;
    }
  }

  /** The bytes hold `chunk` at `at`. */
  ghost predicate HoldsAt(bytes: Bytes, at: nat, chunk: Bytes) {
    at + |chunk| <= |bytes| && bytes[at..at + |chunk|] == chunk
  }

  lemma HoldsBehind(front: Bytes, rest: Bytes, at: nat, chunk: Bytes)
    requires HoldsAt(rest, at, chunk)
    ensures HoldsAt(front + rest, |front| + at, chunk)
  {
    assert (front + rest)[|front| + at..|front| + at + |chunk|] == rest[at..at + |chunk|];
  }

  lemma HoldsFirst(chunk: Bytes, rest: Bytes)
    ensures HoldsAt(chunk + rest, 0, chunk)
  {
    assert (chunk + rest)[0..|chunk|] == chunk;
  }

  /** The k-th piece of the data, sealed under its nonce. */
  function SealedChunk(a: Aead, key: Bytes, nonce: nat -> Nonce, data: Bytes, size: nat, i: nat, k: nat): Bytes
    requires Times(k, size) <= |data|
  {
    a.seal(key, nonce(i + k), data[Times(k, size)..Min(Times(k, size) + size, |data|)])
  }

  lemma SealedChunkShifts(a: Aead, key: Bytes, nonce: nat -> Nonce, data: Bytes, size: nat, i: nat, k: nat)
    requires k > 0 && size <= |data| && Times(k - 1, size) <= |data| - size
    ensures Times(k, size) <= |data|
    ensures SealedChunk(a, key, nonce, data[size..], size, i + 1, k - 1) == SealedChunk(a, key, nonce, data, size, i, k)
  {
    var start := Times(k - 1, size);
    var end := Min(start + size, |data[size..]|);
    assert data[size..][start..end] == data[start + size..end + size];
  }

  lemma SealedStep(a: Aead, key: Bytes, nonce: nat -> Nonce, data: Bytes, size: nat, i: nat, k: nat,
                   sealed: Bytes, rest: Bytes)
    requires k > 0 && |sealed| == size + 16 && size <= |data| && Times(k - 1, size) < |data| - size
    requires HoldsAt(rest, Times(k - 1, size + 16), SealedChunk(a, key, nonce, data[size..], size, i + 1, k - 1))
    ensures Times(k, size) < |data|
    ensures HoldsAt(sealed + rest, Times(k, size + 16), SealedChunk(a, key, nonce, data, size, i, k))
  {
    SealedChunkShifts(a, key, nonce, data, size, i, k);
    HoldsBehind(sealed, rest, Times(k - 1, size + 16), SealedChunk(a, key, nonce, data, size, i, k));
  }

  /** Where the k-th chunk lies among the sealed ones. */
  lemma {:induction false} SealedAt(a: Aead, key: Bytes, nonce: nat -> Nonce, data: Bytes, size: nat, i: nat, k: nat)
    requires Lawful(a) && size > 0 && k < Pieces(|data|, size)
    ensures Times(k, size) < |data|
    ensures HoldsAt(SealAll(a, key, nonce, data, size, i), Times(k, size + 16),
                    SealedChunk(a, key, nonce, data, size, i, k))
    decreases k
  {
    var n := Min(size, |data|);
    var first, tail := data[..n], data[n..];
    var sealed, rest := a.seal(key, nonce(i), first), SealAll(a, key, nonce, tail, size, i + 1);
    assert data == first + tail;
    SealFirst(a, key, nonce, data, size, i, first, tail);
    if k == 0 {
      HoldsFirst(sealed, rest);
      assert data[0..n] == first;
    } else {
      SealedAt(a, key, nonce, tail, size, i + 1, k - 1);
      SealedStep(a, key, nonce, data, size, i, k, sealed, rest);
    }
  }

  /** The encrypted segment, byte by byte: chunk size, chunk count and zero as little-endian words, the base nonce,
      and one chunk of 65536 bytes after another, each with its tag; a segment of up to 1048576 bytes is one chunk. */
  lemma EncryptedLayout(a: Aead, key: Bytes, base: Nonce, segment: Bytes, size: nat)
    requires Lawful(a) && size == if |segment| > 1048576 then 65536 else |segment|
    ensures var e := Encrypted(a, key, base, segment);
            && |e| == 36 + |segment| + 16 * TotalChunks(|segment|)
            && Word32(e, 0) == size && Word32(e, 4) == TotalChunks(|segment|) % TWO_32 && Word32(e, 8) == 0
            && e[12..36] == base
    ensures TotalChunks(|segment|) == if segment == [] then 0 else (|segment| + size - 1) / size
  {
    HeaderWords(|segment|);
    SealedLength(a, key, Nonces(base), segment, size, 0);
    var header := Header(Le32(size), Le32(TotalChunks(|segment|)), base);
    var body := SealAll(a, key, Nonces(base), segment, size, 0);
    HeaderFields(Le32(size), Le32(TotalChunks(|segment|)), base, body);
    ThirdWord(Le32(size) + Le32(TotalChunks(|segment|)), base + body);
    assert header + body == (Le32(size) + Le32(TotalChunks(|segment|))) + Le32(0) + (base + body);
    if segment != [] { TotalChunksIsCeiling(|segment|); }
  }

  lemma ThirdWord(front: Bytes, back: Bytes)
    requires |front| == 8
    ensures Word32(front + Le32(0) + back, 8) == 0
  {
    WordAt(front, Le32(0), back);
  }

  /** Chunk k of the encrypted segment: bytes k * size on, sealed under the k-th nonce, behind the header and k
      chunks with their tags. */
  lemma ChunkLayout(a: Aead, key: Bytes, base: Nonce, segment: Bytes, size: nat, k: nat, start: nat, end: nat, at: nat)
    requires Lawful(a) && size == (if |segment| > 1048576 then 65536 else |segment|) && k < TotalChunks(|segment|)
    requires start == k * size && at == 36 + k * (size + 16)
    requires end == if start + size < |segment| then start + size else |segment|
    ensures start < end <= |segment|
    ensures HoldsAt(Encrypted(a, key, base, segment), at, a.seal(key, ChunkNonce(base, k), segment[start..end]))
  {
    var header := HeaderFirst(a, key, base, segment, size);
    TimesIsProduct(k, size);
    TimesIsProduct(k, size + 16);
    SealedAt(a, key, Nonces(base), segment, size, 0, k);
    HoldsBehind(header, SealAll(a, key, Nonces(base), segment, size, 0), Times(k, size + 16),
                SealedChunk(a, key, Nonces(base), segment, size, 0, k));
  }

  lemma HeaderFirst(a: Aead, key: Bytes, base: Nonce, segment: Bytes, size: nat) returns (header: Bytes)
    requires size == if |segment| > 1048576 then 65536 else |segment|
    ensures |header| == 36
            && Encrypted(a, key, base, segment) == header + SealAll(a, key, Nonces(base), segment, size, 0)
  {
    header := Header(Le32(size), Le32(TotalChunks(|segment|)), base);
    HeaderFields(Le32(size), Le32(TotalChunks(|segment|)), base, []);
  }

  // ----- which error -----

  /** Chunk k of n, at k * (size + 16), when the data is long enough: all but the last are `size` bytes and a tag. */
  ghost function ChunkAt(data: Bytes, size: nat, k: nat, n: nat): Option<Bytes>
    requires k < n
  {
    var at := Times(k, size + 16);
    if k == n - 1 then (if at <= |data| then Some(data[at..]) else None)
    else if at + size + 16 <= |data| then Some(data[at..at + size + 16]) else None
  }

  lemma ChunkShifts(data: Bytes, size: nat, k: nat, n: nat)
    requires 0 < k < n && size + 16 <= |data|
    ensures ChunkAt(data[size + 16..], size, k - 1, n - 1) == ChunkAt(data, size, k, n)
  {
    var at := Times(k - 1, size + 16);
    var tail := data[size + 16..];
    assert Times(k, size + 16) == at + size + 16;
    if at + size + 16 <= |tail| {
      assert tail[at..at + size + 16] == data[at + size + 16..at + size + 16 + size + 16];
    }
    if at <= |tail| {
      assert tail[at..] == data[at + size + 16..];
    }
  }

  ghost predicate OpensAt(a: Aead, key: Bytes, nonce: nat -> Nonce, data: Bytes, size: nat, i: nat, k: nat, n: nat)
    requires k < n
  {
    ChunkAt(data, size, k, n).Some? && a.open(key, nonce(i + k), ChunkAt(data, size, k, n).value).Some?
  }

  ghost predicate AllOpenBefore(a: Aead, key: Bytes, nonce: nat -> Nonce, data: Bytes, size: nat, i: nat,
                                upTo: nat, n: nat)
    requires upTo <= n
  {
    forall k: nat :: k < upTo ==> OpensAt(a, key, nonce, data, size, i, k, n)
  }

  /** Every chunk opens, or the first that does not decides: truncated when the data is too short for it, a tag
      mismatch when it does not open. */
  ghost predicate Verdict(a: Aead, key: Bytes, nonce: nat -> Nonce, data: Bytes, size: nat, i: nat, n: nat,
                          r: Result<Bytes, Error>)
  {
    match r
    case Ok(_) => AllOpenBefore(a, key, nonce, data, size, i, n, n)
    case Err(Truncated(j)) =>
      i <= j < i + n && AllOpenBefore(a, key, nonce, data, size, i, j - i, n) && ChunkAt(data, size, j - i, n).None?
    case Err(TagMismatch(j)) =>
      && i <= j < i + n && AllOpenBefore(a, key, nonce, data, size, i, j - i, n)
      && ChunkAt(data, size, j - i, n).Some? && a.open(key, nonce(j), ChunkAt(data, size, j - i, n).value).None?
    case Err(_) => false
  }

  lemma VerdictShifts(a: Aead, key: Bytes, nonce: nat -> Nonce, data: Bytes, size: nat, i: nat, n: nat,
                      r: Result<Bytes, Error>, r': Result<Bytes, Error>)
    requires n > 1 && size + 16 <= |data| && OpensAt(a, key, nonce, data, size, i, 0, n)
    requires Verdict(a, key, nonce, data[size + 16..], size, i + 1, n - 1, r)
    requires r.Ok? == r'.Ok? && (r.Err? ==> r == r')
    ensures Verdict(a, key, nonce, data, size, i, n, r')
  {
    forall k: nat | 0 < k < n
      ensures ChunkAt(data[size + 16..], size, k - 1, n - 1) == ChunkAt(data, size, k, n)
      ensures OpensAt(a, key, nonce, data[size + 16..], size, i + 1, k - 1, n - 1)
          <==> OpensAt(a, key, nonce, data, size, i, k, n)
    {
      ChunkShifts(data, size, k, n);
    }
  }

  lemma {:induction false} OpenAllVerdict(a: Aead, key: Bytes, nonce: nat -> Nonce, data: Bytes, size: nat, i: nat,
                                          total: nat)
    requires i <= total
    ensures Verdict(a, key, nonce, data, size, i, total - i, OpenAll(a, key, nonce, data, size, i, total))
    decreases total - i
  {
    if i < total {
      FirstChunk(data, size, total - i);
      if i + 1 == total {
        LastVerdict(a, key, nonce, data, size, i);
      } else if size + 16 <= |data| && a.open(key, nonce(i), data[..size + 16]).Some? {
        OpenAllVerdict(a, key, nonce, data[size + 16..], size, i + 1, total);
        VerdictShifts(a, key, nonce, data, size, i, total - i,
                      OpenAll(a, key, nonce, data[size + 16..], size, i + 1, total),
                      OpenAll(a, key, nonce, data, size, i, total));
      } else {
        assert OpenAll(a, key, nonce, data, size, i, total)
               == Err(if size + 16 > |data| then Truncated(i) else TagMismatch(i));
      }
    }
  }

  lemma LastVerdict(a: Aead, key: Bytes, nonce: nat -> Nonce, data: Bytes, size: nat, i: nat)
    ensures Verdict(a, key, nonce, data, size, i, 1, OpenAll(a, key, nonce, data, size, i, i + 1))
  {
    FirstChunk(data, size, 1);
    assert data[..|data|] == data && nonce(i + 0) == nonce(i);
    assert OpenAll(a, key, nonce, data[|data|..], size, i + 1, i + 1) == Ok([]);
    assert OpenAll(a, key, nonce, data, size, i, i + 1).Ok? ==> OpensAt(a, key, nonce, data, size, i, 0, 1);
  }

  lemma FirstChunk(data: Bytes, size: nat, n: nat)
    requires n > 0
    ensures ChunkAt(data, size, 0, n) == if n == 1 then Some(data)
                                         else if size + 16 <= |data| then Some(data[..size + 16]) else None
  {
    assert data[0..] == data && (size + 16 <= |data| ==> data[0..0 + size + 16] == data[..size + 16]);
  }

  /** What decryption answers: the key's error, then the header's, then the first failing chunk's; it succeeds when
      every chunk opens. */
  lemma DecryptedExactly(a: Aead, key: Bytes, e: Bytes)
    ensures Decrypted(a, key, e) == Err(BadKey) <==> |key| != 32
    ensures Decrypted(a, key, e) == Err(TooShort) <==> |key| == 32 && |e| < 36
    ensures |key| == 32 && |e| >= 36 ==>
              Verdict(a, key, Nonces(e[12..36]), e[36..], Word32(e, 0), 0, Word32(e, 4), Decrypted(a, key, e))
  {
    if |key| == 32 && |e| >= 36 {
      OpenAllVerdict(a, key, Nonces(e[12..36]), e[36..], Word32(e, 0), 0, Word32(e, 4));
    }
  }

  // ----- the two functions -----

  method EncryptWalSegment(a: Aead, key: Bytes, segment: Bytes, baseNonce: Nonce) returns (r: Result<Bytes, Error>)
    requires Lawful(a)
    ensures r == if |key| != 32 then Err(BadKey) else Ok(Encrypted(a, key, baseNonce, segment))
  {
    if |key| != KEY_BYTES {
      return Err(BadKey);
    }
    var chunkSize := if |segment| > STREAMING_THRESHOLD then CHUNK_SIZE else |segment|;
    var totalChunks := if |segment| == 0 then 0 else (|segment| + chunkSize - 1) / chunkSize;
    if segment != [] {
      TotalChunksIsCeiling(|segment|);
    }
    var nonce := Nonces(baseNonce);
    var header := Header(Le32(chunkSize), Le32(totalChunks), baseNonce);
    HeaderFields(Le32(chunkSize), Le32(totalChunks), baseNonce, []);
    var body := SealChunks(a, key, nonce, header, segment, chunkSize, totalChunks);
    return Ok(body);
  }

  /** The loops run with the first `done` bytes of the segment handled before chunk i. */
  ghost predicate AtPiece(length: nat, size: nat, total: nat, i: nat, done: nat) {
    && (length > 0 ==> size > 0)
    && i <= total && done <= length
    && Pieces(length - done, size) == total - i
    && (i < total ==> done == i * size)
  }

  lemma NextPiece(length: nat, size: nat, total: nat, i: nat, done: nat)
    requires AtPiece(length, size, total, i, done) && i < total
    ensures done == i * size && size > 0
    ensures done < length && Min(done + size, length) == done + Min(size, length - done)
    ensures AtPiece(length, size, total, i + 1, Min(done + size, length))
  {
    assert (i + 1) * size == i * size + size;
  }

  /** The size loop of `encryptWALSegment`. */
  method EncryptedSize(length: nat, chunkSize: nat, totalChunks: nat) returns (size: nat)
    requires (length > 0 ==> chunkSize > 0) && totalChunks == Pieces(length, chunkSize)
    ensures size == HEADER_SIZE + length + TAG_BYTES * totalChunks
  {
    size := HEADER_SIZE;
    ghost var done: nat := 0;
    for i := 0 to totalChunks
      invariant AtPiece(length, chunkSize, totalChunks, i, done)
      invariant size == HEADER_SIZE + done + TAG_BYTES * i
    {
      NextPiece(length, chunkSize, totalChunks, i, done);
      var offset := i * chunkSize;
      var end := Min(offset + chunkSize, length);
      size := size + (end - offset) + TAG_BYTES;
      done := end;
    }
  }

  /** The output buffer and the sealing loop of `encryptWALSegment`. */
  method SealChunks(a: Aead, key: Bytes, nonce: nat -> Nonce, header: Bytes, segment: Bytes, chunkSize: nat,
                    totalChunks: nat)
    returns (bytes: Bytes)
    requires Lawful(a) && (segment != [] ==> chunkSize > 0) && totalChunks == Pieces(|segment|, chunkSize)
    requires |header| == HEADER_SIZE
    ensures bytes == header + SealAll(a, key, nonce, segment, chunkSize, 0)
  {
    var totalEncryptedSize := EncryptedSize(|segment|, chunkSize, totalChunks);
    ghost var whole := header + SealAll(a, key, nonce, segment, chunkSize, 0);
    SealedLength(a, key, nonce, segment, chunkSize, 0);
    var output: array<Byte> := new Byte[totalEncryptedSize](_ => 0);
    Store(output, 0, header);
    var writeOffset := HEADER_SIZE;
    ghost var done: nat := 0;
    ghost var written := header;
    assert segment[0..] == segment && output[..0] == [];
    for i := 0 to totalChunks
      invariant AtPiece(|segment|, chunkSize, totalChunks, i, done)
      invariant writeOffset == |written| <= output.Length == |whole|
      invariant output[..writeOffset] == written
      invariant written + SealAll(a, key, nonce, segment[done..], chunkSize, i) == whole
    {
      NextPiece(|segment|, chunkSize, totalChunks, i, done);
      var chunkStart := i * chunkSize;
      assert chunkStart == done;
      var chunkEnd := Min(chunkStart + chunkSize, |segment|);
      var plainChunk := segment[chunkStart..chunkEnd];
      var ciphertextWithTag := a.seal(key, nonce(i), plainChunk);
      SealStep(a, key, nonce, segment, chunkSize, i, done, chunkEnd, written, whole);
      Store(output, writeOffset, ciphertextWithTag);
      writeOffset := writeOffset + |ciphertextWithTag|;
      done := chunkEnd;
      written := written + ciphertextWithTag;
    }
    assert segment[done..] == [] && written + [] == written && writeOffset == output.Length;
    bytes := output[..];
  }

  lemma SealStep(a: Aead, key: Bytes, nonce: nat -> Nonce, segment: Bytes, size: nat, i: nat,
                 start: nat, end: nat, written: Bytes, whole: Bytes)
    requires size > 0 && start < end <= |segment| && end == start + Min(size, |segment| - start)
    requires written + SealAll(a, key, nonce, segment[start..], size, i) == whole
    ensures var c := a.seal(key, nonce(i), segment[start..end]);
            && |written| + |c| <= |whole|
            && (written + c) + SealAll(a, key, nonce, segment[end..], size, i + 1) == whole
  {
    assert segment[start..] == segment[start..end] + segment[end..];
    SealFirst(a, key, nonce, segment[start..], size, i, segment[start..end], segment[end..]);
    var c, rest := a.seal(key, nonce(i), segment[start..end]), SealAll(a, key, nonce, segment[end..], size, i + 1);
    assert (written + c) + rest == written + (c + rest);
  }

  lemma SealFirst(a: Aead, key: Bytes, nonce: nat -> Nonce, data: Bytes, size: nat, i: nat, first: Bytes, rest: Bytes)
    requires size > 0 && data != [] && data == first + rest && |first| == Min(size, |data|)
    ensures SealAll(a, key, nonce, data, size, i)
            == a.seal(key, nonce(i), first) + SealAll(a, key, nonce, rest, size, i + 1)
  {
    assert data[..|first|] == first && data[|first|..] == rest;
  }

  /** `Uint8Array.set`. */
  method Store(output: array<Byte>, at: nat, bytes: Bytes)
    requires at + |bytes| <= output.Length
    modifies output
    ensures output[..at + |bytes|] == old(output[..at]) + bytes
  {
    for i := 0 to |bytes|
      invariant output[..at + i] == old(output[..at]) + bytes[..i]
    {
      output[at + i] := bytes[i];
    }
  }

  method DecryptWalSegment(a: Aead, key: Bytes, encrypted: Bytes) returns (r: Result<Bytes, Error>)
    ensures r == Decrypted(a, key, encrypted)
  {
    if |key| != KEY_BYTES {
      return Err(BadKey);
    }
    if |encrypted| < HEADER_SIZE {
      return Err(TooShort);
    }
    var chunkSize := Word32(encrypted, 0);
    var totalChunks := Word32(encrypted, 4);
    var nonce := Nonces(encrypted[12..36]);
    if totalChunks == 0 {
      return Ok([]);
    }
    var decryptedChunks := OpenChunks(a, key, nonce, encrypted, chunkSize, totalChunks);
    if decryptedChunks.Err? {
      return Err(decryptedChunks.error);
    }
    var result := Concatenate(decryptedChunks.value);
    return Ok(result);
  }

  /** The opening loop of `decryptWALSegment`. */
  method OpenChunks(a: Aead, key: Bytes, nonce: nat -> Nonce, encrypted: Bytes, chunkSize: nat, totalChunks: nat)
    returns (r: Result<seq<Bytes>, Error>)
    requires |encrypted| >= HEADER_SIZE
    ensures OpenAll(a, key, nonce, encrypted[HEADER_SIZE..], chunkSize, 0, totalChunks)
            == match r case Ok(chunks) => Ok(Joined(chunks)) case Err(e) => Err(e)
  {
    var decryptedChunks: seq<Bytes> := [];
    var readOffset := HEADER_SIZE;
    ghost var whole := OpenAll(a, key, nonce, encrypted[HEADER_SIZE..], chunkSize, 0, totalChunks);
    PrependNothing(whole);
    for i := 0 to totalChunks
      invariant HEADER_SIZE <= readOffset <= |encrypted|
      invariant whole == Prepend(Joined(decryptedChunks),
                                 OpenAll(a, key, nonce, encrypted[readOffset..], chunkSize, i, totalChunks))
    {
      var isLastChunk := i == totalChunks - 1;
      var encryptedChunkLen := if isLastChunk then |encrypted| - readOffset else chunkSize + TAG_BYTES;
      if readOffset + encryptedChunkLen > |encrypted| {
        return Err(Truncated(i));
      }
      var ciphertextWithTag := encrypted[readOffset..readOffset + encryptedChunkLen];
      assert encrypted[readOffset..][..encryptedChunkLen] == ciphertextWithTag;
      assert encrypted[readOffset..][encryptedChunkLen..] == encrypted[readOffset + encryptedChunkLen..];
      readOffset := readOffset + encryptedChunkLen;
      var plaintext := a.open(key, nonce(i), ciphertextWithTag);
      if plaintext.None? {
        return Err(TagMismatch(i));
      }
      JoinedAppend(decryptedChunks, plaintext.value);
      PrependTwice(Joined(decryptedChunks), plaintext.value,
                   OpenAll(a, key, nonce, encrypted[readOffset..], chunkSize, i + 1, totalChunks));
      decryptedChunks := decryptedChunks + [plaintext.value];
    }
    assert Joined(decryptedChunks) + [] == Joined(decryptedChunks);
    return Ok(decryptedChunks);
  }

  method Concatenate(chunks: seq<Bytes>) returns (result: Bytes)
    ensures result == Joined(chunks)
  {
    result := [];
    for i := 0 to |chunks|
      invariant result == Joined(chunks[..i])
    {
      assert chunks[..i + 1] == chunks[..i] + [chunks[i]];
      JoinedAppend(chunks[..i], chunks[i]);
      result := result + chunks[i];
    }
    assert chunks[..|chunks|] == chunks;
  }

  ghost function Joined(chunks: seq<Bytes>): Bytes {
    if chunks == [] then [] else chunks[0] + Joined(chunks[1..])
  }

  lemma {:induction false} JoinedAppend(chunks: seq<Bytes>, last: Bytes)
    ensures Joined(chunks + [last]) == Joined(chunks) + last
  {
    if chunks == [] {
      assert [] + [last] == [last];
    } else {
      assert (chunks + [last])[1..] == chunks[1..] + [last];
      JoinedAppend(chunks[1..], last);
    }
  }

  lemma PrependNothing(r: Result<Bytes, Error>)
    ensures Prepend([], r) == r
  {
    if r.Ok? {
      assert [] + r.value == r.value;
    }
  }

  lemma PrependTwice(a: Bytes, b: Bytes, r: Result<Bytes, Error>)
    ensures Prepend(a, Prepend(b, r)) == Prepend(a + b, r)
  {
    if r.Ok? {
      assert a + (b + r.value) == (a + b) + r.value;
    }
  }
}
