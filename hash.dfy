/** The 32-bit mixing hash of sb_hash_feature and sb_hash_lang. All arithmetic is on bv32, so the
    shifts and the additions wrap modulo 2^32 exactly as on the C code's uint32_t. */
module Hash {

  /** The seed sb_hash_feature starts from. */
  const Seed: bv32 := 1315423911

  /** The number of bytes in a quadgram and in the ring buffer (SB_NGRAM_SIZE). */
  const NgramSize: nat := 4

  /** One step of the hash: h ^= (h << 5) + b + (h >> 2). */
  function Mix(h: bv32, b: bv8): bv32
  {
    h ^ ((h << 5) + (b as bv32) + (h >> 2))
  }

  /** The hash state after mixing in `bytes` in order, starting from `h`. */
  function Fold(h: bv32, bytes: seq<bv8>): bv32
    decreases |bytes|
  {
    if bytes == [] then h else Mix(Fold(h, bytes[..|bytes| - 1]), bytes[|bytes| - 1])
  }

  /** Hashing a concatenation is hashing the second part from the state the first part leaves:
      the hash of a quadgram combined with a label is the hash of the quadgram's bytes followed
      by the label's bytes. */
  lemma {:induction false} FoldAppend(h: bv32, a: seq<bv8>, b: seq<bv8>)
    ensures Fold(h, a + b) == Fold(Fold(h, a), b)
    decreases |b|
  {
    if b == [] {
      assert a + b == a;
    } else {
      var b' := b[..|b| - 1];
      assert (a + b)[..|a + b| - 1] == a + b';
      FoldAppend(h, a, b');
    }
  }

  /** The bytes of a C string stored in `s`: everything before the first NUL, all of `s` if it
      has none. */
  function CString(s: seq<bv8>): (r: seq<bv8>)
    ensures r <= s
    ensures 0 !in r
    ensures |r| < |s| ==> s[|r|] == 0
  {
    if s == [] || s[0] == 0 then [] else [s[0]] + CString(s[1..])
  }

  /** A NUL ends the string: whatever follows it is never read. */
  lemma {:induction false} CStringStopsAtNul(a: seq<bv8>, b: seq<bv8>)
    requires 0 !in a
    ensures CString(a + [0] + b) == a
  {
    var s := a + [0] + b;
    var r := CString(s);
    assert forall k :: 0 <= k < |a| ==> s[k] == a[k];
    assert s[|a|] == 0;
    assert r == s[..|r|];
    assert s[..|a|] == a;
  }

  /** A string with no NUL byte in it is read whole. */
  lemma CStringWhole(s: seq<bv8>)
    requires 0 !in s
    ensures CString(s) == s
  {
    var r := CString(s);
    assert r == s[..|r|];
  }

  /** The four ring slots read in order, starting with slot `pos mod 4` (the oldest byte). */
  function Ring(s: seq<bv8>, pos: nat): (r: seq<bv8>)
    requires |s| == NgramSize
    ensures |r| == NgramSize
  {
    seq(NgramSize, i requires 0 <= i < NgramSize => s[(pos + i) % NgramSize])
  }

  /** sb_hash_feature: the seeded hash of the four ring slots read from `pos mod 4` on. */
  method HashFeature(s: array<bv8>, pos: nat) returns (h: bv32)
    requires s.Length == NgramSize
    ensures h == Fold(Seed, Ring(s[..], pos))
  {
    h := Seed;
    var i := 0;
    while i < NgramSize
      invariant 0 <= i <= NgramSize
      invariant h == Fold(Seed, Ring(s[..], pos)[..i])
    {
      assert Ring(s[..], pos)[..i + 1][..i] == Ring(s[..], pos)[..i];
      h := Mix(h, s[(pos + i) % NgramSize]);
      i := i + 1;
    }
    assert Ring(s[..], pos)[..NgramSize] == Ring(s[..], pos);
  }

  /** sb_hash_lang: continues `h0` over the label's bytes up to its terminating NUL. */
  method HashLang(h0: bv32, lang: seq<bv8>) returns (h: bv32)
    ensures h == Fold(h0, CString(lang))
  {
    h := h0;
    var i := 0;
    while i < |lang| && lang[i] != 0
      invariant 0 <= i <= |lang|
      invariant 0 !in lang[..i]
      invariant h == Fold(h0, lang[..i])
    {
      assert lang[..i + 1][..i] == lang[..i];
      h := Mix(h, lang[i]);
      i := i + 1;
    }
    var r := CString(lang);
    assert forall k :: 0 <= k < i ==> lang[k] == lang[..i][k];
    assert r == lang[..|r|];
  }
}
