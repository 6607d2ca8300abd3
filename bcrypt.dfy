/** BCrypt.hashpw / BCrypt.checkpw (jBCrypt).  hashpw runs the bcrypt key schedule over
    a key made from the password: its UTF-8 bytes followed by one zero byte, repeated
    cyclically to fill the 72 bytes the schedule consumes.  The stored hash string
    records the salt and the cipher output for that key; checkpw re-hashes the candidate
    password with the stored salt and compares.  Here bcrypt's cipher is taken as an
    ideal function of (salt, key), so a hash is represented by its salt and key bytes.
    Work factor, timing and cipher collisions are not part of this model. */
module BCrypt {

  type Salt = nat

  /** An unsigned byte value. */
  type Byte = b: int | 0 <= b < 256

  /** The number of key bytes the bcrypt key schedule consumes. */
  const KeyLength: nat := 72

  /** The UTF-8 encoding of one character (String.getBytes("UTF-8")). */
  function Utf8Char(c: char): (bs: seq<Byte>)
    ensures 1 <= |bs| <= 4
    ensures c < 128 as char ==> bs == [c as int]
  {
    var n := c as int;
    if n < 0x80 then [n]
    else if n < 0x800 then [0xC0 + n / 0x40, 0x80 + n % 0x40]
    else if n < 0x10000 then [0xE0 + n / 0x1000, 0x80 + (n / 0x40) % 0x40, 0x80 + n % 0x40]
    else [0xF0 + n / 0x40000, 0x80 + (n / 0x1000) % 0x40, 0x80 + (n / 0x40) % 0x40, 0x80 + n % 0x40]
  }

  /** The UTF-8 encoding of a string. */
  function Utf8(s: string): (bs: seq<Byte>)
    ensures |bs| >= |s|
  {
    if s == [] then [] else Utf8Char(s[0]) + Utf8(s[1..])
  }

  /** The 72 key bytes hashpw and checkpw feed to the key schedule. */
  function KeyBytes(password: string): (k: seq<Byte>)
    ensures |k| == KeyLength
  {
    Cycle(Utf8(password) + [0])
  }

  /** A non-empty byte string repeated cyclically to fill the key. */
  function Cycle(bytes: seq<Byte>): (k: seq<Byte>)
    requires bytes != []
    ensures |k| == KeyLength
  {
    seq(KeyLength, i requires 0 <= i < KeyLength => bytes[i % |bytes|])
  }

  /** Byte strings longer than the key that agree on their first 72 bytes fill the key alike. */
  lemma CycleKeepsPrefix(b1: seq<Byte>, b2: seq<Byte>)
    requires |b1| > KeyLength && |b2| > KeyLength
    requires b1[..KeyLength] == b2[..KeyLength]
    ensures Cycle(b1) == Cycle(b2)
  {
    forall i | 0 <= i < KeyLength
      ensures Cycle(b1)[i] == Cycle(b2)[i]
    {
      SmallRemainder(i, |b1|);
      SmallRemainder(i, |b2|);
      assert b1[i] == b1[..KeyLength][i] && b2[i] == b2[..KeyLength][i];
    }
  }

  lemma SmallRemainder(i: nat, n: nat)
    requires i < n
    ensures i % n == i
  {
    assert i == 0 * n + i;
  }

  datatype Hash = Hashed(salt: Salt, key: seq<Byte>)

  /** BCrypt.hashpw(password, salt): the hash keeps the salt it was made with, and
      checkpw accepts the password it was made from. */
  function HashPw(password: string, salt: Salt): (h: Hash)
    ensures h.salt == salt
    ensures CheckPw(password, h)
  {
    Hashed(salt, KeyBytes(password))
  }

  /** BCrypt.checkpw(candidate, hash): re-hashing the candidate under the hash's salt
      gives the same hash, that is, the candidate yields the same key bytes. */
  predicate CheckPw(candidate: string, h: Hash) {
    KeyBytes(candidate) == h.key
  }

  /** The same password hashed under two different salts gives two different hash
      values, and checkpw accepts the password against both. */
  lemma SaltsSeparateHashes(password: string, s1: Salt, s2: Salt)
    requires s1 != s2
    ensures HashPw(password, s1) != HashPw(password, s2)
    ensures CheckPw(password, HashPw(password, s1)) && CheckPw(password, HashPw(password, s2))
  {}

  /** Only the first 72 bytes of a password's UTF-8 encoding reach the key schedule:
      two passwords whose encodings are at least that long and agree on those bytes
      have the same key, so checkpw accepts either against the other's hash. */
  lemma LongPasswordsShareKey(p: string, q: string, salt: Salt)
    requires |Utf8(p)| >= KeyLength && |Utf8(q)| >= KeyLength
    requires Utf8(p)[..KeyLength] == Utf8(q)[..KeyLength]
    ensures KeyBytes(p) == KeyBytes(q)
    ensures CheckPw(q, HashPw(p, salt)) && CheckPw(p, HashPw(q, salt))
  {
    var bp, bq := Utf8(p) + [0], Utf8(q) + [0];
    assert bp[..KeyLength] == Utf8(p)[..KeyLength];
    assert bq[..KeyLength] == Utf8(q)[..KeyLength];
    CycleKeepsPrefix(bp, bq);
  }

  /** A string of one ASCII character repeated n times. */
  function Repeat(c: char, n: nat): (s: string)
    ensures |s| == n && forall i | 0 <= i < n :: s[i] == c
  {
    seq(n, _ => c)
  }

  /** Each ASCII character takes one UTF-8 byte. */
  lemma {:induction false} Utf8Ascii(s: string)
    requires forall i | 0 <= i < |s| :: s[i] < 128 as char
    ensures |Utf8(s)| == |s|
    ensures forall i | 0 <= i < |s| :: Utf8(s)[i] == s[i] as int
  {
    if s != [] {
      Utf8Ascii(s[1..]);
    }
  }

  /** Two passwords of 73 ASCII characters that differ only in the last one are
      interchangeable: checkpw accepts either against the other's hash. */
  lemma SeventyThirdCharacterIgnored(salt: Salt)
    ensures CheckPw(Repeat('a', 72) + "Y", HashPw(Repeat('a', 72) + "X", salt))
    ensures Repeat('a', 72) + "Y" != Repeat('a', 72) + "X"
  {
    var p, q := Repeat('a', 72) + "X", Repeat('a', 72) + "Y";
    assert p[72] != q[72];
    Utf8Ascii(p);
    Utf8Ascii(q);
    assert Utf8(p)[..KeyLength] == Utf8(q)[..KeyLength] by {
      forall i | 0 <= i < KeyLength
        ensures Utf8(p)[i] == Utf8(q)[i]
      {
        assert p[i] == 'a' == q[i];
      }
    }
    LongPasswordsShareKey(p, q, salt);
  }
}
