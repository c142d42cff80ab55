/** rh_string_hash (hash.h lines 18-29): 64-bit FNV-1a over a C string,
    with a zero digest replaced by 1 so that 0 can mark an empty bucket. */
module StringHash {
  /** A C `char`, as its eight bits; it is signed, so 0x80 and above are
      negative. */
  type Char = bv8

  /** The FNV-1a 64-bit offset basis 14695981039346656037. */
  const OffsetBasis: bv64 := 0xcbf2_9ce4_8422_2325

  /** The FNV-1a 64-bit prime 1099511628211. */
  const Prime: bv64 := 0x100_0000_01b3

  /** `hash ^= *string`: the char is sign-extended to 64 bits, so the
      upper 56 bits copy its sign bit and the lower 8 are the char. */
  function Extend(c: Char): (r: bv64)
    ensures r & 0xff == c as bv64
    ensures c < 0x80 ==> r >> 8 == 0
    ensures c >= 0x80 ==> r >> 8 == 0xff_ffff_ffff_ffff
  {
    if c < 0x80 then c as bv64 else c as bv64 | 0xffff_ffff_ffff_ff00
  }

  /** One round of the loop: xor the char in, then multiply by the prime,
      wrapping at 2^64. */
  function Round(hash: bv64, c: Char): bv64
  {
    (hash ^ Extend(c)) * Prime
  }

  /** The characters of the C string held in s: everything before the
      first NUL, or all of s when it holds none. */
  function CString(s: seq<Char>): (r: seq<Char>)
    ensures r <= s
    ensures forall k :: 0 <= k < |r| ==> r[k] != 0
    ensures |r| == |s| || s[|r|] == 0
  {
    if |s| == 0 || s[0] == 0 then [] else [s[0]] + CString(s[1..])
  }

  /** A prefix free of NUL that ends at a NUL or at the end of s is
      CString(s). */
  lemma {:induction false} CStringUnique(s: seq<Char>, n: nat)
    requires n <= |s| && (forall k :: 0 <= k < n ==> s[k] != 0) && (n == |s| || s[n] == 0)
    ensures CString(s) == s[..n]
  {
    if n > 0 {
      CStringUnique(s[1..], n - 1);
      assert s[..n] == [s[0]] + s[1..][..n - 1];
    }
  }

  /** The FNV-1a digest of cs: starting from the offset basis, each char is
      xor-ed in and the hash multiplied by the prime, wrapping at 2^64. */
  function Fnv(cs: seq<Char>): (r: bv64)
  {
    if |cs| == 0 then OffsetBasis else Round(Fnv(cs[..|cs| - 1]), cs[|cs| - 1])
  }

  /** The digest of one more char is one more FNV-1a round. */
  lemma FnvStep(cs: seq<Char>, c: Char)
    ensures Fnv(cs + [c]) == Round(Fnv(cs), c)
  {
    assert (cs + [c])[..|cs|] == cs;
  }

  /** rh_string_hash: the FNV-1a digest of the C string in s, or 1 when the
      digest is 0. It is never 0. The int64_t result is given by its 64
      bits. */
  method Hash(s: seq<Char>) returns (h: bv64)
    ensures h != 0
    ensures Fnv(CString(s)) != 0 ==> h == Fnv(CString(s))
    ensures Fnv(CString(s)) == 0 ==> h == 1
  {
    var hash: bv64 := OffsetBasis;
    var i := 0;
    while i < |s| && s[i] != 0
      invariant i <= |s|
      invariant forall k :: 0 <= k < i ==> s[k] != 0
      invariant hash == Fnv(s[..i])
    {
      FnvStep(s[..i], s[i]);
      assert s[..i + 1] == s[..i] + [s[i]];
      hash := Round(hash, s[i]);
      i := i + 1;
    }
    CStringUnique(s, i);
    h := if hash != 0 then hash else 1;
  }
}
