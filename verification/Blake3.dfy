/** The package's entry points on top of the incremental hasher. */
module Blake3 {
  import opened Words
  import opened TreeSpec
  import opened Xof
  import opened Hashing
  import opened Reference

  const KEY_LEN: nat := 32

  /** The plain, unkeyed hash. */
  function Unkeyed(compress: Compressor): Mode {
    Mode(compress, IV, 0)
  }

  datatype KeyedResult = Keyed(hasher: Hasher) | InvalidKeySize

  /** Key words are the key bytes read in little-endian order. */
  function KeyFromBytes(key: seq<Byte>): (words: Chain)
    requires |key| == KEY_LEN
  {
    ToWords(key)
  }

  method New(compress: Compressor) returns (h: Hasher)
    ensures fresh(h.Repr) && h.Valid() && h.msg == [] && h.Setup() == Unkeyed(compress)
  {
    h := new Hasher(compress, IV, 0);
  }

  method NewKeyed(compress: Compressor, key: seq<Byte>) returns (r: KeyedResult)
    ensures r.Keyed? <==> |key| == 32
    ensures r.Keyed? ==> fresh(r.hasher.Repr) && r.hasher.Valid() && r.hasher.msg == []
    ensures r.Keyed? ==> r.hasher.Setup() == Mode(compress, KeyFromBytes(key), 16)
    ensures r.Keyed? ==> forall i: nat :: i < 8 ==> r.hasher.key[i] == LittleEndian(key[4 * i..4 * i + 4])
  {
    if |key| != KEY_LEN {
      return InvalidKeySize;
    }
    var h := new Hasher(compress, KeyFromBytes(key), KEYED_HASH);
    forall i: nat | i < 8 ensures KeyFromBytes(key)[i] == LittleEndian(key[4 * i..4 * i + 4]) {
      WordsAreLittleEndian(key, i);
    }
    r := Keyed(h);
  }

  /** Appends the 32-byte hash to the slice of `length` bytes from `lo` on: in place when the slice's
      capacity allows it, in a fresh array otherwise. The result is the slice of `result` from `start` on. */
  method Sum(h: Hasher, output: array<Byte>, lo: nat, length: nat, capacity: nat)
    returns (result: array<Byte>, start: nat)
    requires h.Valid() && output !in h.Repr && length <= capacity && lo + capacity <= output.Length
    modifies h.Repr, output
    ensures h.Valid() && h.msg == old(h.msg) && h.Setup() == old(h.Setup())
    ensures start + length + 32 <= result.Length
    ensures result[start..start + length + 32] ==
            old(output[lo..lo + length]) + HashBytes(h.Setup(), h.msg, 32)
    ensures if length + 32 <= capacity then
              && result == output && start == lo && output[..lo + length] == old(output[..lo + length])
              && output[lo + length + 32..] == old(output[lo + length + 32..])
            else
              fresh(result) && output[..] == old(output[..])
  {
    hide HashBytes, Splice, Hasher.Valid, Hasher.Setup;
    var top := length + DIGEST_LEN;
    ghost var before, hash := output[..], HashBytes(h.Setup(), h.msg, DIGEST_LEN);
    if top <= capacity {
      Finalize(h, output, lo + length, lo + top);
      SpliceAppends(before, lo, length, hash);
      return output, lo;
    }
    var temporary := new Byte[DIGEST_LEN];
    ghost var blank := temporary[..];
    Finalize(h, temporary, 0, DIGEST_LEN);
    result, start := new Byte[top], 0;
    Put(result, 0, output[lo..lo + length]);
    assert result[..length] == result[0..length];
    Put(result, length, temporary[..]);
    SpliceParts(blank, 0, hash);
    assert result[0..top] == result[..length] + result[length..top];
  }

  lemma SpliceAppends(s: seq<Byte>, lo: nat, length: nat, part: seq<Byte>)
    requires lo + length + |part| <= |s|
    ensures var r := Splice(s, lo + length, part);
            && r[..lo + length] == s[..lo + length] && r[lo + length + |part|..] == s[lo + length + |part|..]
            && r[lo..lo + length + |part|] == s[lo..lo + length] + part
  {
  }

  method Finalize(h: Hasher, output: array<Byte>, lo: nat, hi: nat)
    requires h.Valid() && output !in h.Repr && lo <= hi <= output.Length
    modifies h.Repr, output
    ensures h.Valid() && h.msg == old(h.msg) && h.Setup() == old(h.Setup())
    ensures output[..] == Splice(old(output[..]), lo, HashBytes(h.Setup(), h.msg, hi - lo))
  {
    hide Splice, Stream;
    var digest := h.FinalizeDigest();
    var _ := digest.Read(output, lo, hi);
  }

  /** The key that a context string derives. */
  function ContextKey(compress: Compressor, context: seq<Byte>): Chain {
    KeyFromBytes(HashBytes(Mode(compress, IV, DERIVE_KEY_CONTEXT), context, KEY_LEN))
  }

  /** Two phases on one hasher: hash the context, reset, go on under the derived key. */
  method NewDeriveKey(compress: Compressor, context: seq<Byte>) returns (h: Hasher)
    requires |context| < MESSAGE_LIMIT
    ensures fresh(h.Repr) && h.Valid() && h.msg == []
    ensures h.Setup() == Mode(compress, ContextKey(compress, context), 64)
    ensures forall i: nat :: i < 8 ==>
              h.key[i] == LittleEndian(HashBytes(Mode(compress, IV, 32), context, 32)[4 * i..4 * i + 4])
  {
    hide HashBytes;
    h := new Hasher(compress, IV, DERIVE_KEY_CONTEXT);
    h.Write(context);
    assert [] + context == context;
    var contextKey := ReadSome(h, KEY_LEN);
    h.Reset();
    h.SetKey(KeyFromBytes(contextKey), DERIVE_KEY_MATERIAL);
    forall i: nat | i < 8 ensures KeyFromBytes(contextKey)[i] == LittleEndian(contextKey[4 * i..4 * i + 4]) {
      WordsAreLittleEndian(contextKey, i);
    }
  }

  method DeriveKey(compress: Compressor, context: seq<Byte>, material: seq<Byte>, out: array<Byte>)
    requires |context| < MESSAGE_LIMIT && |material| < MESSAGE_LIMIT
    modifies out
    ensures out[..] ==
            HashBytes(Mode(compress, ContextKey(compress, context), DERIVE_KEY_MATERIAL), material, out.Length)
  {
    hide ContextKey, HashBytes;
    var h := NewDeriveKey(compress, context);
    assert [] + material == material;
    h.Write(material);
    Finalize(h, out, 0, out.Length);
  }

  method SumSmall(compress: Compressor, data: seq<Byte>, out: array<Byte>)
    requires |data| <= CHUNK_LEN
    modifies out
    ensures out[..] == HashBytes(Unkeyed(compress), data, out.Length)
  {
    var root := CompressAll(Unkeyed(compress), data);
    RootCounter(Unkeyed(compress), data);
    var digest := new Digest(compress, root);
    var _ := digest.Read(out, 0, out.Length);
  }

  method SumLarge(compress: Compressor, data: seq<Byte>, out: array<Byte>)
    requires |data| < MESSAGE_LIMIT
    modifies out
    ensures out[..] == HashBytes(Unkeyed(compress), data, out.Length)
  {
    hide HashBytes;
    var h := New(compress);
    assert [] + data == data;
    h.Write(data);
    Finalize(h, out, 0, out.Length);
  }

  method Sum256(compress: Compressor, data: seq<Byte>) returns (sum: seq<Byte>)
    requires |data| < MESSAGE_LIMIT
    ensures sum == HashBytes(Unkeyed(compress), data, 32)
    ensures forall p: nat :: p < 32 ==> sum[p] == OutputByte(compress, IV, 0, data, p)
  {
    hide HashBytes, OutputByte;
    forall p: nat | p < 32 ensures HashBytes(Unkeyed(compress), data, 32)[p] == OutputByte(compress, IV, 0, data, p) {
      HashIsReference(Unkeyed(compress), data, 32, p);
    }
    var out := new Byte[32];
    if |data| <= CHUNK_LEN {
      SumSmall(compress, data, out);
    } else {
      SumLarge(compress, data, out);
    }
    sum := out[..];
  }

  method Sum512(compress: Compressor, data: seq<Byte>) returns (sum: seq<Byte>)
    requires |data| < MESSAGE_LIMIT
    ensures sum == HashBytes(Unkeyed(compress), data, 64)
    ensures forall p: nat :: p < 64 ==> sum[p] == OutputByte(compress, IV, 0, data, p)
  {
    hide HashBytes, OutputByte;
    forall p: nat | p < 64 ensures HashBytes(Unkeyed(compress), data, 64)[p] == OutputByte(compress, IV, 0, data, p) {
      HashIsReference(Unkeyed(compress), data, 64, p);
    }
    var out := new Byte[64];
    if |data| <= CHUNK_LEN {
      SumSmall(compress, data, out);
    } else {
      SumLarge(compress, data, out);
    }
    sum := out[..];
  }

  method Clone(h: Hasher) returns (copy: Hasher)
    requires h.Valid()
    ensures fresh(copy.Repr) && copy.Valid() && copy.msg == h.msg && copy.Setup() == h.Setup()
  {
    copy := new Hasher.Clone(h);
  }

  /** `Sum(nil)`. */
  method SumNil(h: Hasher) returns (sum: seq<Byte>)
    requires h.Valid()
    modifies h.Repr
    ensures h.Valid() && h.msg == old(h.msg) && h.Setup() == old(h.Setup())
    ensures sum == HashBytes(h.Setup(), h.msg, DIGEST_LEN)
  {
    hide HashBytes;
    var none := new Byte[0];
    var result, start := Sum(h, none, 0, 0, 0);
    sum := result[start..start + DIGEST_LEN];
  }

  /** The first `n` bytes of `Digest()`. */
  method ReadSome(h: Hasher, n: nat) returns (bytes: seq<Byte>)
    requires h.Valid()
    modifies h.Repr
    ensures h.Valid() && h.msg == old(h.msg) && h.Setup() == old(h.Setup())
    ensures bytes == HashBytes(h.Setup(), h.msg, n)
  {
    hide HashBytes;
    var out := new Byte[n];
    Finalize(h, out, 0, n);
    bytes := out[..];
  }
}
