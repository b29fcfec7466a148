/**
 * The client-side helpers of the request re-encryption library: the pool of
 * recent activity timestamps, the nonce that mixes a random draw with that
 * pool, the nonce hand-over of `encryptData`, and the conversions between
 * byte arrays and base 64 text.
 *
 * `crypto.getRandomValues` and the cipher of `crypto.subtle` are foreign:
 * the 12 random bytes and the sealing function are parameters.
 */
module Encryption {
  import opened Wrappers
  import Base64

  /** The most timestamps the pool keeps. */
  const MAX_ACTIVITY_SAMPLES: nat := 10

  /** The nonce length of ChaCha20-Poly1305 (section 2.8 of RFC 8439). */
  const NONCE_LENGTH: nat := 12

  /** An element of a Uint8Array. */
  newtype Byte = b: int | 0 <= b < 256

  /** Bitwise exclusive or of two bytes. */
  function Xor(x: Byte, y: Byte): Byte {
    ((x as bv8) ^ (y as bv8)) as Byte
  }

  /** XOR with zero leaves a byte as it is. */
  lemma XorZero(x: Byte)
    ensures Xor(x, 0) == x
  {
    assert (x as bv8) ^ (0 as bv8) == x as bv8;
  }

  // ---------------------------------------------------------------------
  // The activity-entropy pool
  // ---------------------------------------------------------------------

  /** The last min(|h|, 10) entries of a recording history, oldest first. */
  function RecentWindow(h: seq<int>): (w: seq<int>)
    ensures |w| <= MAX_ACTIVITY_SAMPLES
    ensures |w| == if |h| < MAX_ACTIVITY_SAMPLES then |h| else MAX_ACTIVITY_SAMPLES
  {
    if |h| <= MAX_ACTIVITY_SAMPLES then h else h[|h| - MAX_ACTIVITY_SAMPLES..]
  }

  /** The window is the tail of the history, oldest first: its last entry is the newest timestamp. */
  lemma RecentWindowSuffix(h: seq<int>)
    ensures RecentWindow(h) == h[|h| - |RecentWindow(h)|..]
    ensures h != [] ==> RecentWindow(h)[|RecentWindow(h)| - 1] == h[|h| - 1]
  {
  }

  /** The pool after one `recordActivityEntropy(t)`: push, then shift once when over the limit. */
  function Recorded(pool: seq<int>, t: int): seq<int> {
    var pushed := pool + [t];
    if |pushed| > MAX_ACTIVITY_SAMPLES then pushed[1..] else pushed
  }

  /** Recording into the window of a history gives the window of the longer history. */
  lemma RecordedWindow(h: seq<int>, t: int)
    ensures Recorded(RecentWindow(h), t) == RecentWindow(h + [t])
  {
    var w := RecentWindow(h);
    var h' := h + [t];
    if |h| >= MAX_ACTIVITY_SAMPLES {
      assert (w + [t])[1..] == h'[|h'| - MAX_ACTIVITY_SAMPLES..];
    }
  }

  /** The pool after recording a run of timestamps, one after the other. */
  function RecordAll(pool: seq<int>, ts: seq<int>): seq<int>
    decreases |ts|
  {
    if ts == [] then pool else RecordAll(Recorded(pool, ts[0]), ts[1..])
  }

  /** Whatever was recorded before, a run of recordings leaves the window of the whole history. */
  lemma {:induction false} RecordAllWindow(h: seq<int>, ts: seq<int>)
    ensures RecordAll(RecentWindow(h), ts) == RecentWindow(h + ts)
    decreases |ts|
  {
    if ts == [] {
      assert h + ts == h;
    } else {
      var h1 := h + [ts[0]];
      var rest := ts[1..];
      assert RecordAll(RecentWindow(h), ts) == RecordAll(Recorded(RecentWindow(h), ts[0]), rest);
      RecordedWindow(h, ts[0]);
      RecordAllWindow(h1, rest);
      assert h1 + rest == h + ts;
    }
  }

  /** The newest timestamp is always the last sample, and the pool never holds more than 10. */
  lemma RecordedNewestLast(pool: seq<int>, t: int)
    requires |pool| <= MAX_ACTIVITY_SAMPLES
    ensures var p := Recorded(pool, t); |p| <= MAX_ACTIVITY_SAMPLES && p != [] && p[|p| - 1] == t
    ensures |pool| == MAX_ACTIVITY_SAMPLES ==> Recorded(pool, t) == pool[1..] + [t]
  {
  }

  /** The module-level array `recentActivityTimestamps`, with the history of every recorded timestamp. */
  class ActivityEntropyPool {
    var samples: seq<int>
    ghost var history: seq<int>

    ghost predicate Valid()
      reads this
    {
      samples == RecentWindow(history)
    }

    constructor ()
      ensures Valid() && samples == [] && history == []
    {
      samples := [];
      history := [];
    }

    /** `recordActivityEntropy(timestamp)`. */
    method RecordActivityEntropy(timestamp: int)
      requires Valid()
      modifies this
      ensures Valid()
      ensures history == old(history) + [timestamp]
      ensures samples == Recorded(old(samples), timestamp)
      ensures |samples| <= MAX_ACTIVITY_SAMPLES && samples[|samples| - 1] == timestamp
    {
      RecordedWindow(history, timestamp);
      samples := samples + [timestamp];
      if |samples| > MAX_ACTIVITY_SAMPLES {
        samples := samples[1..];
      }
      history := history + [timestamp];
    }

    /**
     * `generateNonce()`, with the 12 bytes `crypto.getRandomValues` fills in
     * given as `random`: the draw mixed with the pool as MixedNonce says.
     * The pool is only read.
     */
    method GenerateNonce(random: seq<Byte>) returns (nonce: seq<Byte>)
      requires |random| == NONCE_LENGTH
      ensures nonce == MixedNonce(random, samples)
      ensures samples == [] ==> nonce == random
      ensures Valid() ==> nonce[MAX_ACTIVITY_SAMPLES..] == random[MAX_ACTIVITY_SAMPLES..]
    {
      var pool := samples;
      var buffer := new Byte[NONCE_LENGTH](i requires 0 <= i < NONCE_LENGTH => random[i]);
      assert buffer[..] == random;
      if |pool| > 0 {
        var entropySource := FillEntropySource(pool);
        MixInto(buffer, entropySource);
        MixedWithEntropyVector(random, pool, buffer[..]);
      }
      nonce := buffer[..];
      MixedNonceProperties(random, pool);
    }
  }

  /** The first loop of `generateNonce`: a zeroed 12-byte array receives the entropy byte of each sample, up to 12. */
  method FillEntropySource(pool: seq<int>) returns (entropySource: array<Byte>)
    ensures fresh(entropySource)
    ensures entropySource[..] == EntropyVector(pool)
  {
    entropySource := new Byte[NONCE_LENGTH](_ => 0);
    var i := 0;
    while i < |pool| && i < NONCE_LENGTH
      invariant 0 <= i <= NONCE_LENGTH && i <= |pool|
      invariant entropySource.Length == NONCE_LENGTH
      invariant forall k :: 0 <= k < NONCE_LENGTH ==>
        entropySource[k] == if k < i then EntropyByte(pool[k]) else 0
    {
      entropySource[i] := EntropyByte(pool[i]);
      i := i + 1;
    }
    assert entropySource[..] == EntropyVector(pool);
  }

  /** The second loop of `generateNonce`: `nonce[i] ^= entropySource[i % entropySource.length]` for every i < 12. */
  method MixInto(nonce: array<Byte>, entropySource: array<Byte>)
    requires nonce.Length == NONCE_LENGTH && entropySource.Length == NONCE_LENGTH
    requires nonce != entropySource
    modifies nonce
    ensures forall k :: 0 <= k < NONCE_LENGTH ==> nonce[k] == Xor(old(nonce[k]), entropySource[k])
  {
    ghost var drawn := nonce[..];
    ghost var entropy := entropySource[..];
    var i := 0;
    while i < NONCE_LENGTH
      invariant 0 <= i <= NONCE_LENGTH
      invariant entropySource[..] == entropy
      invariant forall k :: 0 <= k < NONCE_LENGTH ==>
        nonce[k] == if k < i then Xor(drawn[k], entropy[k]) else drawn[k]
    {
      assert i % entropySource.Length == i;
      nonce[i] := Xor(nonce[i], entropySource[i % entropySource.Length]);
      i := i + 1;
    }
  }

  /** The `entropySource` array once filled: one entropy byte per sample, up to 12, then zeros. */
  function EntropyVector(pool: seq<int>): (e: seq<Byte>)
    ensures |e| == NONCE_LENGTH
  {
    seq(NONCE_LENGTH, k requires 0 <= k < NONCE_LENGTH => if k < |pool| then EntropyByte(pool[k]) else 0)
  }

  /**
   * The nonce `generateNonce` returns for the draw `random` and the pool
   * `pool`: byte i is XORed with the entropy byte of sample i while there is
   * one (samples are not reused), and every later byte is left as drawn.
   */
  function MixedNonce(random: seq<Byte>, pool: seq<int>): (n: seq<Byte>)
    requires |random| == NONCE_LENGTH
    ensures |n| == NONCE_LENGTH
  {
    seq(NONCE_LENGTH, i requires 0 <= i < NONCE_LENGTH =>
      if i < |pool| then Xor(random[i], EntropyByte(pool[i])) else random[i])
  }

  /** XORing the draw with the whole entropy vector, zeros included, gives MixedNonce. */
  lemma MixedWithEntropyVector(random: seq<Byte>, pool: seq<int>, mixed: seq<Byte>)
    requires |random| == NONCE_LENGTH && |mixed| == NONCE_LENGTH
    requires forall k :: 0 <= k < NONCE_LENGTH ==> mixed[k] == Xor(random[k], EntropyVector(pool)[k])
    ensures mixed == MixedNonce(random, pool)
  {
    forall k | 0 <= k < NONCE_LENGTH ensures mixed[k] == MixedNonce(random, pool)[k] {
      if k >= |pool| {
        XorZero(random[k]);
      }
    }
  }

  /**
   * The nonce has 12 bytes; an empty pool gives the draw unchanged; and a
   * pool of at most 10 samples never touches bytes 10 and 11.
   */
  lemma MixedNonceProperties(random: seq<Byte>, pool: seq<int>)
    requires |random| == NONCE_LENGTH
    ensures |MixedNonce(random, pool)| == NONCE_LENGTH
    ensures pool == [] ==> MixedNonce(random, pool) == random
    ensures |pool| <= MAX_ACTIVITY_SAMPLES ==>
      MixedNonce(random, pool)[MAX_ACTIVITY_SAMPLES..] == random[MAX_ACTIVITY_SAMPLES..]
    ensures forall i :: 0 <= i < |pool| && i < NONCE_LENGTH ==>
      MixedNonce(random, pool)[i] == Xor(random[i], EntropyByte(pool[i]))
    ensures forall i :: |pool| <= i < NONCE_LENGTH ==> MixedNonce(random, pool)[i] == random[i]
  {
  }

  /**
   * `(t & 0xFF) ^ ((t >> 8) & 0xFF)` for an integer timestamp t: the low and
   * the second-lowest byte of t, XORed. JavaScript first reduces t to 32 bits
   * (ToInt32), which keeps both bytes; arithmetic shift and logical shift
   * agree on bits 8 to 15.
   */
  function EntropyByte(t: int): Byte {
    Xor((t % 256) as Byte, ((t / 256) % 256) as Byte)
  }

  /** Reducing a timestamp to 32 bits first does not change its entropy byte. */
  lemma EntropyByteInt32(t: int)
    ensures EntropyByte(t % 0x1_0000_0000) == EntropyByte(t)
  {
    var u := t % 0x1_0000_0000;
    var q := t / 0x1_0000_0000;
    assert t == (q * 0x100_0000) * 256 + u;
    ShiftByte(q * 0x100_0000, u);
    assert t / 256 == (q * 0x1_0000) * 256 + u / 256;
    ShiftByte(q * 0x1_0000, u / 256);
  }

  /** Adding a multiple of 256 changes neither the low byte nor the bytes above it, except by the multiple. */
  lemma ShiftByte(k: int, a: int)
    ensures (k * 256 + a) % 256 == a % 256
    ensures (k * 256 + a) / 256 == k + a / 256
  {
  }

  // ---------------------------------------------------------------------
  // encryptData
  // ---------------------------------------------------------------------

  /** What `encryptData` resolves to. */
  datatype Sealed = Sealed(encrypted: seq<Byte>, nonce: seq<Byte>)

  /**
   * `encryptData(plaintext, key, nonce)` with the cipher of `crypto.subtle`
   * as the parameter `seal`, which fails (the promise rejects) or gives the
   * ciphertext. The caller's nonce is handed back unchanged.
   */
  function EncryptData<Key>(plaintext: string, key: Key, nonce: seq<Byte>,
                            seal: (Key, seq<Byte>, string) -> Result<seq<Byte>, string>): (r: Result<Sealed, string>)
    ensures r.Success? <==> seal(key, nonce, plaintext).Success?
    ensures r.Success? ==> r.value.nonce == nonce && r.value.encrypted == seal(key, nonce, plaintext).value
    ensures r.Failure? ==> r.error == seal(key, nonce, plaintext).error
  {
    match seal(key, nonce, plaintext)
    case Success(ciphertext) => Success(Sealed(ciphertext, nonce))
    case Failure(e) => Failure(e)
  }

  // ---------------------------------------------------------------------
  // Base 64 conversion
  // ---------------------------------------------------------------------

  /** The values of a byte array, as `String.fromCharCode(...array)` reads them. */
  function ByteValues(a: seq<Byte>): (b: seq<int>)
    ensures |b| == |a| && Base64.AllBytes(b)
    ensures forall i :: 0 <= i < |a| ==> b[i] == a[i] as int
  {
    seq(|a|, i requires 0 <= i < |a| => a[i] as int)
  }

  /** `String.fromCharCode(...array)`: one character per byte. */
  function Latin1(a: seq<Byte>): (s: string)
    ensures |s| == |a| && Base64.IsLatin1(s)
    ensures forall i :: 0 <= i < |a| ==> s[i] as int == a[i] as int
  {
    Base64.FromCharCodes(ByteValues(a))
  }

  /** `arrayToBase64(array)`: `btoa` of the bytes as characters, which never throws. */
  function ArrayToBase64(a: seq<Byte>): (r: string)
    ensures Base64.BtoA(Latin1(a)) == Success(r)
    ensures |r| == 4 * ((|a| + 2) / 3)
  {
    var s := Latin1(a);
    assert Base64.CharCodes(s) == ByteValues(a);
    Base64.EncodeLengths(ByteValues(a));
    Base64.Encode(ByteValues(a))
  }

  /** What a Uint8Array keeps of a character code it is given: the code modulo 256. */
  function StoredByte(c: char): Byte {
    (c as int % 256) as Byte
  }

  /** The character codes of a string as a Uint8Array stores them. */
  function StoredBytes(binary: string): (b: seq<Byte>)
    ensures |b| == |binary|
    ensures forall i :: 0 <= i < |binary| ==> b[i] == StoredByte(binary[i])
  {
    seq(|binary|, i requires 0 <= i < |binary| => StoredByte(binary[i]))
  }

  /** A Uint8Array filled from the characters of a byte string holds the bytes again. */
  lemma StoredLatin1(a: seq<Byte>)
    ensures StoredBytes(Latin1(a)) == a
  {
    var s := Latin1(a);
    forall i | 0 <= i < |a| ensures StoredBytes(s)[i] == a[i] {
      assert s[i] as int == a[i] as int;
    }
  }

  /** The bytes `base64ToArray(text)` returns, or the exception `atob` throws. */
  function DecodedBytes(text: string): (r: Result<seq<Byte>, Base64.DomException>)
    ensures r.Success? <==> Base64.AtoB(text).Success?
    ensures r.Success? ==> |r.value| == |Base64.AtoB(text).value|
    ensures r.Success? ==> forall i :: 0 <= i < |r.value| ==> r.value[i] as int == Base64.AtoB(text).value[i] as int
  {
    match Base64.AtoB(text)
    case Success(binary) => Success(StoredBytes(binary))
    case Failure(e) => Failure(e)
  }

  /** `base64ToArray(text)`: decode with `atob`, then copy the character codes into a fresh byte array. */
  method Base64ToArray(text: string) returns (r: Result<seq<Byte>, Base64.DomException>)
    ensures r == DecodedBytes(text)
  {
    var decoded := Base64.AtoB(text);
    if decoded.Failure? {
      return Failure(decoded.error);
    }
    var binary := decoded.value;
    var bytes := new Byte[|binary|];
    var i := 0;
    while i < |binary|
      invariant 0 <= i <= |binary|
      invariant forall k :: 0 <= k < i ==> bytes[k] == StoredByte(binary[k])
    {
      bytes[i] := StoredByte(binary[i]);
      i := i + 1;
    }
    assert bytes[..] == StoredBytes(binary);
    r := Success(bytes[..]);
  }

  /** `base64ToArray(arrayToBase64(a))` gives back a, for every byte array a. */
  lemma ArrayBase64RoundTrip(a: seq<Byte>)
    ensures DecodedBytes(ArrayToBase64(a)) == Success(a)
  {
    Base64.BtoARoundTrip(Latin1(a));
    StoredLatin1(a);
  }
}
