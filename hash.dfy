/**
 * Bob Jenkins' one-at-a-time hash as `jenkins_one_at_a_time_hash` computes it:
 * wrapping 32-bit arithmetic over the unsigned bytes of a C string, reduced
 * to a bucket index.
 */
module OneAtATime {
  import opened HashTableTypes

  /** One round of the byte loop: add the byte, then `h += h << 10; h ^= h >> 6`. */
  function Step(h: bv32, c: bv8): bv32
  {
    var a := h + c as bv32;
    var b := a + (a << 10);
    b ^ (b >> 6)
  }

  /** The running hash after the loop has consumed the bytes of `key`, in order. */
  function Mix(key: seq<bv8>): bv32
    decreases |key|
  {
    if key == [] then 0 else Step(Mix(key[..|key| - 1]), key[|key| - 1])
  }

  /** The three finalising rounds that follow the loop. */
  function Finish(h: bv32): bv32
  {
    var a := h + (h << 3);
    var b := a ^ (a >> 11);
    b + (b << 15)
  }

  /** The full 32-bit one-at-a-time digest of `key`. */
  function Digest(key: seq<bv8>): bv32
  {
    Finish(Mix(key))
  }

  /** The bucket index of `key`: the digest, as an unsigned value, modulo the table size. */
  function HashIndex(key: seq<bv8>): (index: u32)
    ensures index as int < TABLE_SIZE
  {
    ((Digest(key) as int) % TABLE_SIZE) as u32
  }

  /** The C string a byte buffer holds: its bytes up to, not including, the first NUL. */
  function CString(buf: seq<bv8>): (s: seq<bv8>)
    ensures NoNul(s) && s <= buf
    ensures |s| < |buf| ==> buf[|s|] == NUL
  {
    if buf == [] || buf[0] == NUL then [] else [buf[0]] + CString(buf[1..])
  }

  /** The prefix that stops at a NUL or at the end of the buffer is the C string. */
  lemma {:induction false} CStringAt(buf: seq<bv8>, n: nat)
    requires n <= |buf| && NoNul(buf[..n])
    requires n < |buf| ==> buf[n] == NUL
    ensures CString(buf) == buf[..n]
  {
    if n > 0 {
      assert buf[..n][0] == buf[0];
      assert buf[1..][..n - 1] == buf[..n][1..];
      CStringAt(buf[1..], n - 1);
      assert buf[..n] == [buf[0]] + buf[1..][..n - 1];
    }
  }

  /** A NUL-free byte sequence is its own C string. */
  lemma CStringOfNoNul(s: seq<bv8>)
    requires NoNul(s)
    ensures CString(s) == s
  {
    CStringAt(s, |s|);
  }

  /** Bytes after the terminator do not take part in the hash. */
  lemma HashIgnoresTail(key: seq<bv8>, tail: seq<bv8>)
    requires NoNul(key)
    ensures HashIndex(CString(key + [NUL] + tail)) == HashIndex(key)
  {
    var buf := key + [NUL] + tail;
    assert buf[..|key|] == key;
    CStringAt(buf, |key|);
  }

  /** The published one-at-a-time test vector: the digest of "a" is 0xca2e9442. */
  lemma DigestOfA()
    ensures Digest([0x61]) == 0xca2e9442
    ensures HashIndex([0x61]) == 42
  {
    assert [0x61 as bv8][..0] == [];
  }

  /** Consuming one more byte of the buffer is one more round. */
  lemma MixExtend(buf: seq<bv8>, i: nat)
    requires i < |buf|
    ensures Mix(buf[..i + 1]) == Step(Mix(buf[..i]), buf[i])
  {
    assert buf[..i + 1][..i] == buf[..i];
  }

  /**
   * `jenkins_one_at_a_time_hash`: the loop walks `key` until the terminator
   * (or the end of the buffer), mixing each byte into `hash` by one `Step`;
   * the three finalising rounds follow.
   */
  method JenkinsOneAtATimeHash(key: seq<bv8>) returns (index: u32)
    ensures index == HashIndex(CString(key))
    ensures index as int < TABLE_SIZE
  {
    var hash: bv32 := 0;
    var i := 0;
    while i < |key| && key[i] != NUL
      invariant 0 <= i <= |key|
      invariant NoNul(key[..i])
      invariant hash == Mix(key[..i])
    {
      MixExtend(key, i);
      hash := Step(hash, key[i]);
      i := i + 1;
    }
    hash := Finish(hash);
    CStringAt(key, i);
    index := ((hash as int) % TABLE_SIZE) as u32;
  }
}
