/** The APR1 password scheme around an opaque digest: the mixing loops, the
    rounds, and the 22-character tail. */
module Apr1 {
  import opened Wrappers

  type Byte = b: int | 0 <= b < 256 witness 0

  type Digest = s: seq<Byte> | |s| == 16 witness [0, 0, 0, 0, 0, 0, 0, 0, 0, 0, 0, 0, 0, 0, 0, 0]

  /** A 16-byte digest of a byte string; nothing else is known about it. */
  type Hasher = seq<Byte> -> Digest

  /** The bytes of "$apr1$". */
  const MAGIC: seq<Byte> := [36, 97, 112, 114, 49, 36]

  const DOLLAR: Byte := 36

  const SALT_MAX: nat := 8

  // ----- The mixing loops -----

  /** The first `n` bytes of `alt` repeated. */
  function Cycled(alt: Digest, n: nat): (r: seq<Byte>)
    ensures |r| == n
  {
    seq(n, i requires 0 <= i < n => alt[i % 16])
  }

  /** One byte per bit of `n`, lowest first: zero for a set bit, else the first
      password byte. */
  function BitBytes(password: seq<Byte>, n: nat): seq<Byte>
    requires n > 0 ==> password != []
  {
    if n == 0 then []
    else [if n % 2 == 1 then 0 else password[0]] + BitBytes(password, n / 2)
  }

  function Pow2(k: nat): (p: nat)
    ensures p >= 1
  {
    if k == 0 then 1 else 2 * Pow2(k - 1)
  }

  /** Bit `i` of `n`, counted from the lowest. */
  predicate BitSet(n: nat, i: nat) {
    n / Pow2(i) % 2 == 1
  }

  /** As many bytes are fed as `n` has binary digits, and each stands for its bit. */
  lemma {:induction false} OneBytePerBit(password: seq<Byte>, n: nat)
    requires n > 0 ==> password != []
    ensures var k := |BitBytes(password, n)|;
            && n < Pow2(k) && (n == 0 <==> k == 0) && (n > 0 ==> Pow2(k - 1) <= n)
    ensures forall i :: 0 <= i < |BitBytes(password, n)| ==>
              BitBytes(password, n)[i] == if BitSet(n, i) then 0 else password[0]
  {
    if n > 0 {
      var rest := BitBytes(password, n / 2);
      OneBytePerBit(password, n / 2);
      assert |BitBytes(password, n)| == 1 + |rest|;
      hide BitSet;
      forall i | 0 <= i < 1 + |rest|
        ensures BitBytes(password, n)[i] == if BitSet(n, i) then 0 else password[0]
      {
        if i == 0 {
          LowestBit(n);
        } else {
          HigherBit(n, i);
        }
      }
    }
  }

  lemma LowestBit(n: nat)
    ensures BitSet(n, 0) <==> n % 2 == 1
  {
  }

  lemma HigherBit(n: nat, i: nat)
    requires i > 0
    ensures BitSet(n, i) <==> BitSet(n / 2, i - 1)
  {
    var p := Pow2(i - 1);
    var half := n / 2;
    var q, r := half / p, half % p;
    assert n == 2 * p * q + (2 * r + n % 2) by {
      assert half == p * q + r;
    }
    QuotientUnique(n, 2 * p, q, 2 * r + n % 2);
  }

  lemma QuotientUnique(n: nat, d: nat, q: nat, r: nat)
    requires r < d && n == d * q + r
    ensures n / d == q
  {
    var q' := n / d;
    assert n == d * q' + n % d;
    if q < q' {
      TimesGrows(d, q, q');
    } else if q' < q {
      TimesGrows(d, q', q);
    }
  }

  lemma {:induction false} TimesGrows(d: nat, a: nat, b: nat)
    requires a < b
    ensures d * b >= d * a + d
  {
    assert d * b == d * (b - 1) + d;
    if a < b - 1 {
      TimesGrows(d, a, b - 1);
    }
  }

  /** What is fed to the first digest. */
  function Initial(md5: Hasher, password: seq<Byte>, salt: seq<Byte>): seq<Byte> {
    var alt := md5(password + salt + password);
    password + MAGIC + salt + Cycled(alt, |password|) + BitBytes(password, |password|)
  }

  /** The input of round `i`. */
  function RoundInput(i: nat, password: seq<Byte>, salt: seq<Byte>, digest: Digest): seq<Byte> {
    (if i % 2 == 1 then password else digest)
    + (if i % 3 != 0 then salt else [])
    + (if i % 7 != 0 then password else [])
    + (if i % 2 == 1 then digest else password)
  }

  /** The digest after the first `n` rounds. */
  function AfterRounds(md5: Hasher, password: seq<Byte>, salt: seq<Byte>, n: nat): Digest {
    if n == 0 then md5(Initial(md5, password, salt))
    else md5(RoundInput(n - 1, password, salt, AfterRounds(md5, password, salt, n - 1)))
  }

  /** The digest a password and a salt come to. */
  function FinalDigest(md5: Hasher, password: seq<Byte>, salt: seq<Byte>): Digest {
    AfterRounds(md5, password, salt, 1000)
  }

  /** What the first digest is fed, part by part: the password, "$apr1$", the salt,
      the alternate digest repeated to the password's length, a byte per bit. */
  lemma FirstInput(md5: Hasher, password: seq<Byte>, salt: seq<Byte>)
    ensures var r, p, s := Initial(md5, password, salt), |password|, |salt|;
            && |r| == 2 * p + 6 + s + |BitBytes(password, p)|
            && r[..p] == password
            && r[p] == 36 && r[p + 1] == 97 && r[p + 2] == 112 && r[p + 3] == 114 && r[p + 4] == 49 && r[p + 5] == 36
            && r[p + 6..p + 6 + s] == salt
            && (forall k :: 0 <= k < p ==> r[p + 6 + s + k] == md5(password + salt + password)[k % 16])
            && r[2 * p + 6 + s..] == BitBytes(password, p)
  {
    hide BitBytes;
  }

  /** What a round is fed: opened by the previous digest and closed by the password
      in even rounds, the other way round in odd ones; the salt in between except
      in every third round, then the password except in every seventh. */
  lemma RoundFeeds(i: nat, password: seq<Byte>, salt: seq<Byte>, digest: Digest)
    ensures var r, first, last := RoundInput(i, password, salt, digest),
                                  if i % 2 == 0 then digest else password,
                                  if i % 2 == 0 then password else digest;
            && first <= r && |last| <= |r| && r[|r| - |last|..] == last
            && var mid := r[|first|..|r| - |last|];
               && (i % 3 == 0 && i % 7 == 0 ==> mid == [])
               && (i % 3 == 0 && i % 7 != 0 ==> mid == password)
               && (i % 3 != 0 && i % 7 == 0 ==> mid == salt)
               && (i % 3 != 0 && i % 7 != 0 ==> mid == salt + password)
  {
    var r := RoundInput(i, password, salt, digest);
    var first: seq<Byte>, last: seq<Byte> := digest, password;
    if i % 2 != 0 {
      first, last := password, digest;
    }
    var mid := (if i % 3 != 0 then salt else []) + (if i % 7 != 0 then password else []);
    assert r == first + mid + last;
    assert r[|first|..|r| - |last|] == mid;
    assert r[|r| - |last|..] == last;
  }

  /** The chain behind a digest: the first digest, then 1000 rounds, each hashing
      its own mix of the one before. */
  lemma {:induction false} DigestChain(md5: Hasher, password: seq<Byte>, salt: seq<Byte>, n: nat)
    returns (chain: seq<Digest>)
    ensures |chain| == n + 1 && chain[0] == md5(Initial(md5, password, salt))
    ensures forall i :: 0 <= i < n ==> chain[i + 1] == md5(RoundInput(i, password, salt, chain[i]))
    ensures chain[n] == AfterRounds(md5, password, salt, n)
    ensures n == 1000 ==> chain[1000] == FinalDigest(md5, password, salt)
  {
    hide Initial, RoundInput;
    if n == 0 {
      chain := [md5(Initial(md5, password, salt))];
    } else {
      chain := DigestChain(md5, password, salt, n - 1);
      chain := chain + [md5(RoundInput(n - 1, password, salt, chain[n - 1]))];
    }
  }

  /** Feed exactly as many bytes of `alt` as the password is long, 16 at a time. */
  method MixAlt(input: seq<Byte>, alt: Digest, length: nat) returns (r: seq<Byte>)
    ensures r == input + Cycled(alt, length)
  {
    hide Cycled;
    r := input;
    var remaining: int := length;
    ghost var fed := 0;
    assert r == input + Cycled(alt, 0);
    while remaining > 0
      invariant fed % 16 == 0 || remaining <= 0
      invariant remaining == length - fed || (remaining <= 0 && fed == length)
      invariant 0 <= fed <= length
      invariant r == input + Cycled(alt, fed)
    {
      var take := if remaining < 16 then remaining else 16;
      CycledGrows(alt, fed, take);
      r := r + alt[..take];
      fed := fed + take;
      remaining := remaining - 16;
    }
  }

  lemma CycledGrows(alt: Digest, fed: nat, take: nat)
    requires fed % 16 == 0 && take <= 16
    ensures Cycled(alt, fed + take) == Cycled(alt, fed) + alt[..take]
  {
    forall k | 0 <= k < take
      ensures Cycled(alt, fed + take)[fed + k] == alt[k]
    {
      CycleOffset(fed, k);
    }
  }

  lemma CycleOffset(fed: nat, k: nat)
    requires fed % 16 == 0 && k < 16
    ensures (fed + k) % 16 == k
  {
  }

  /** Feed one byte per bit of the password's length. */
  method MixBits(input: seq<Byte>, password: seq<Byte>) returns (r: seq<Byte>)
    ensures r == input + BitBytes(password, |password|)
  {
    r := input;
    var j: nat := |password|;
    while j > 0
      invariant j > 0 ==> password != []
      invariant r + BitBytes(password, j) == input + BitBytes(password, |password|)
      decreases j
    {
      if j % 2 == 1 {
        r := r + [0];
      } else {
        r := r + [password[0]];
      }
      j := j / 2;
    }
  }

  /** The varying mix fed to one round. */
  method RoundBytes(i: nat, password: seq<Byte>, salt: seq<Byte>, digest: Digest) returns (round: seq<Byte>)
    ensures round == RoundInput(i, password, salt, digest)
  {
    round := if i % 2 == 1 then password else digest;
    if i % 3 != 0 {
      round := round + salt;
    }
    if i % 7 != 0 {
      round := round + password;
    }
    if i % 2 == 1 {
      round := round + digest;
    } else {
      round := round + password;
    }
  }

  method ComputeDigest(md5: Hasher, password: seq<Byte>, salt: seq<Byte>) returns (digest: Digest)
    ensures digest == FinalDigest(md5, password, salt)
  {
    var input := password + MAGIC + salt;
    var alt := md5(password + salt + password);
    input := MixAlt(input, alt, |password|);
    input := MixBits(input, password);
    digest := md5(input);
    for i := 0 to 1000
      invariant digest == AfterRounds(md5, password, salt, i)
    {
      var round := RoundBytes(i, password, salt, digest);
      digest := md5(round);
    }
  }

  // ----- The tail -----

  /** The 64 letters "./0-9A-Za-z", as bytes, in order of value. */
  function Letter(v: int): (b: Byte)
    requires 0 <= v < 64
  {
    if v < 12 then 46 + v else if v < 38 then 65 + (v - 12) else 97 + (v - 38)
  }

  /** The value of a letter. */
  function LetterValue(b: Byte): Option<int> {
    if 46 <= b < 58 then Some(b - 46)
    else if 65 <= b < 91 then Some(b - 65 + 12)
    else if 97 <= b < 123 then Some(b - 97 + 38)
    else None
  }

  lemma LetterIs(v: int)
    requires 0 <= v < 64
    ensures LetterValue(Letter(v)) == Some(v)
  {
  }

  /** The alphabet: dot and slash, then the digits, capitals and small letters,
      each run in order. */
  lemma Alphabet(v: int)
    requires 0 <= v < 64
    ensures Letter(0) == '.' as int && Letter(1) == '/' as int && Letter(2) == '0' as int
    ensures Letter(12) == 'A' as int && Letter(38) == 'a' as int
    ensures v !in {11, 37, 63} ==> Letter(v + 1) == Letter(v) + 1
  {
  }

  /** `count` letters for the low bits of `value`, six at a time, lowest first. */
  function Letters(value: nat, count: nat): (r: seq<Byte>)
    ensures |r| == count
  {
    if count == 0 then [] else [Letter(value % 64)] + Letters(value / 64, count - 1)
  }

  method To64(text: seq<Byte>, value: nat, count: nat) returns (r: seq<Byte>)
    ensures r == text + Letters(value, count)
  {
    r := text;
    var v := value;
    for i := 0 to count
      invariant r + Letters(v, count - i) == text + Letters(value, count)
    {
      r := r + [Letter(v % 64)];
      v := v / 64;
    }
  }

  function Pow64(k: nat): nat {
    if k == 0 then 1 else 64 * Pow64(k - 1)
  }

  /** The number a letter string stands for, lowest first. */
  function FromLetters(s: seq<Byte>): Option<nat> {
    if s == [] then Some(0)
    else
      var v, rest := LetterValue(s[0]), FromLetters(s[1..]);
      if v.None? || rest.None? then None else Some(v.value + 64 * rest.value)
  }

  lemma {:induction false} LettersRead(value: nat, count: nat)
    requires value < Pow64(count)
    ensures FromLetters(Letters(value, count)) == Some(value)
  {
    if count > 0 {
      LettersRead(value / 64, count - 1);
      LetterIs(value % 64);
      var s := Letters(value, count);
      assert s[1..] == Letters(value / 64, count - 1);
    }
  }

  function Pack(a: Byte, b: Byte, c: Byte): nat {
    a * 65536 + b * 256 + c
  }

  function Unpack(v: nat): (Byte, Byte, Byte)
    requires v < 0x100_0000
  {
    var high := v / 256;
    (high / 256, high % 256, v % 256)
  }

  lemma PackBound(a: Byte, b: Byte, c: Byte)
    ensures Pack(a, b, c) < 0x100_0000
    ensures Pack(a, b, c) == 256 * (256 * a + b) + c
  {
  }

  lemma UnpackPack(a: Byte, b: Byte, c: Byte)
    ensures Pack(a, b, c) < 0x100_0000 && Unpack(Pack(a, b, c)) == (a, b, c)
  {
    PackBound(a, b, c);
    LowByte(Pack(a, b, c), 256 * a + b, c);
    LowByte(256 * a + b, a, b);
    hide Pack;
  }

  lemma LowByte(v: nat, q: nat, r: nat)
    requires r < 256 && v == 256 * q + r
    ensures v / 256 == q && v % 256 == r
  {
  }

  /** The tail: five shuffled triples of four letters, one byte of two. */
  function Tail(d: Digest): (r: seq<Byte>)
    ensures |r| == 22
  {
    Letters(Pack(d[0], d[6], d[12]), 4) + Letters(Pack(d[1], d[7], d[13]), 4) + Letters(Pack(d[2], d[8], d[14]), 4)
    + Letters(Pack(d[3], d[9], d[15]), 4) + Letters(Pack(d[4], d[10], d[5]), 4) + Letters(d[11], 2)
  }

  method EncodeTail(d: Digest) returns (r: seq<Byte>)
    ensures r == Tail(d)
  {
    hide Letters, Pack;
    r := [];
    r := To64(r, Pack(d[0], d[6], d[12]), 4);
    r := To64(r, Pack(d[1], d[7], d[13]), 4);
    r := To64(r, Pack(d[2], d[8], d[14]), 4);
    r := To64(r, Pack(d[3], d[9], d[15]), 4);
    r := To64(r, Pack(d[4], d[10], d[5]), 4);
    r := To64(r, d[11], 2);
  }

  /** Three bytes back from four letters. */
  function ReadTriple(s: seq<Byte>): Option<(Byte, Byte, Byte)> {
    var v := FromLetters(s);
    if v.Some? && v.value < 0x100_0000 then Some(Unpack(v.value)) else None
  }

  lemma ReadsTriple(a: Byte, b: Byte, c: Byte)
    ensures ReadTriple(Letters(Pack(a, b, c), 4)) == Some((a, b, c))
  {
    UnpackPack(a, b, c);
    assert Pow64(0) == 1 && Pow64(1) == 64 && Pow64(2) == 4096 && Pow64(3) == 262144 && Pow64(4) == 0x100_0000;
    LettersRead(Pack(a, b, c), 4);
    hide Letters, FromLetters, Pack, Unpack, Pow64;
  }

  /** The digest a tail encodes. */
  function ReadTail(s: seq<Byte>): Option<Digest> {
    if |s| != 22 then None
    else
      var t0, t1, t2 := ReadTriple(s[0..4]), ReadTriple(s[4..8]), ReadTriple(s[8..12]);
      var t3, t4, last := ReadTriple(s[12..16]), ReadTriple(s[16..20]), FromLetters(s[20..22]);
      if t0.Some? && t1.Some? && t2.Some? && t3.Some? && t4.Some? && last.Some? && last.value < 256 then
        var b11: Byte := last.value;
        Some([t0.value.0, t1.value.0, t2.value.0, t3.value.0, t4.value.0, t4.value.2,
              t0.value.1, t1.value.1, t2.value.1, t3.value.1, t4.value.1, b11,
              t0.value.2, t1.value.2, t2.value.2, t3.value.2])
      else None
  }

  /** The tail is lossless: all sixteen bytes come back from the 22 letters. */
  lemma TailRoundTrip(d: Digest)
    ensures ReadTail(Tail(d)) == Some(d)
  {
    hide ReadTriple, FromLetters, Letters, Pack, Tail;
    TailParts(d);
    ReadsTriple(d[0], d[6], d[12]);
    ReadsTriple(d[1], d[7], d[13]);
    ReadsTriple(d[2], d[8], d[14]);
    ReadsTriple(d[3], d[9], d[15]);
    ReadsTriple(d[4], d[10], d[5]);
    ReadsPair(d[11]);
    assert ReadTail(Tail(d)).Some?;
    var r := ReadTail(Tail(d)).value;
    assert forall i :: 0 <= i < 16 ==> r[i] == d[i];
    assert |r| == |d| == 16;
    assert r == d;
  }

  lemma ReadsPair(b: Byte)
    ensures FromLetters(Letters(b, 2)) == Some(b)
  {
    assert Pow64(0) == 1 && Pow64(1) == 64 && Pow64(2) == 4096;
    LettersRead(b, 2);
    hide FromLetters, Letters;
  }

  lemma TailParts(d: Digest)
    ensures var s := Tail(d);
            && s[0..4] == Letters(Pack(d[0], d[6], d[12]), 4)
            && s[4..8] == Letters(Pack(d[1], d[7], d[13]), 4)
            && s[8..12] == Letters(Pack(d[2], d[8], d[14]), 4)
            && s[12..16] == Letters(Pack(d[3], d[9], d[15]), 4)
            && s[16..20] == Letters(Pack(d[4], d[10], d[5]), 4)
            && s[20..22] == Letters(d[11], 2)
  {
    hide Letters, Pack;
    Slices(Letters(Pack(d[0], d[6], d[12]), 4), Letters(Pack(d[1], d[7], d[13]), 4),
           Letters(Pack(d[2], d[8], d[14]), 4),
           Letters(Pack(d[3], d[9], d[15]), 4), Letters(Pack(d[4], d[10], d[5]), 4), Letters(d[11], 2));
  }

  lemma Slices(a: seq<Byte>, b: seq<Byte>, c: seq<Byte>, d: seq<Byte>, e: seq<Byte>, f: seq<Byte>)
    requires |a| == 4 && |b| == 4 && |c| == 4 && |d| == 4 && |e| == 4 && |f| == 2
    ensures var s := a + b + c + d + e + f;
            s[0..4] == a && s[4..8] == b && s[8..12] == c && s[12..16] == d && s[16..20] == e && s[20..22] == f
  {
  }

  // ----- Verification -----

  /** What follows the first dollar sign and what precedes it. */
  function SplitAtDollar(s: seq<Byte>): Option<(seq<Byte>, seq<Byte>)> {
    if s == [] then None
    else if s[0] == DOLLAR then Some(([], s[1..]))
    else
      match SplitAtDollar(s[1..])
      case None => None
      case Some(p) => Some(([s[0]] + p.0, p.1))
  }

  function Truncated(salt: seq<Byte>): seq<Byte> {
    if |salt| <= SALT_MAX then salt else salt[..SALT_MAX]
  }

  /** The password check against a stored entry. */
  method VerifyApr1(md5: Hasher, password: seq<Byte>, stored: seq<Byte>) returns (ok: bool)
    ensures ok <==> Accepts(md5, password, stored)
  {
    if !(MAGIC <= stored) {
      return false;
    }
    var parts := SplitAtDollar(stored[|MAGIC|..]);
    if parts.None? {
      return false;
    }
    var (salt, expected) := parts.value;
    var cut := if |salt| < 8 then |salt| else 8;
    assert salt[..cut] == Truncated(salt);
    var digest := ComputeDigest(md5, password, salt[..cut]);
    var computed := EncodeTail(digest);
    ok := computed == expected;
  }

  /** The stored entry is the scheme's own for this password. */
  predicate Accepts(md5: Hasher, password: seq<Byte>, stored: seq<Byte>) {
    && MAGIC <= stored
    && var parts := SplitAtDollar(stored[|MAGIC|..]);
       parts.Some? && parts.value.1 == Tail(FinalDigest(md5, password, Truncated(parts.value.0)))
  }

  lemma {:induction false} SplitsAtFirst(salt: seq<Byte>, rest: seq<Byte>)
    requires DOLLAR !in salt
    ensures SplitAtDollar(salt + [DOLLAR] + rest) == Some((salt, rest))
  {
    var s := salt + [DOLLAR] + rest;
    if salt == [] {
      assert s[1..] == rest;
    } else {
      SplitsAtFirst(salt[1..], rest);
      assert s[1..] == salt[1..] + [DOLLAR] + rest;
      assert [salt[0]] + salt[1..] == salt;
    }
  }

  lemma AfterMagic(salt: seq<Byte>, tail: seq<Byte>)
    ensures var stored := MAGIC + salt + [DOLLAR] + tail;
            MAGIC <= stored && stored[|MAGIC|..] == salt + [DOLLAR] + tail
  {
  }

  lemma {:induction false} SplitsBack(s: seq<Byte>)
    ensures SplitAtDollar(s).None? <==> DOLLAR !in s
    ensures SplitAtDollar(s).Some? ==>
              var (salt, rest) := SplitAtDollar(s).value; DOLLAR !in salt && s == salt + [DOLLAR] + rest
  {
    if s != [] && s[0] != DOLLAR {
      SplitsBack(s[1..]);
      assert s == [s[0]] + s[1..];
    }
  }

  /** "$apr1$", the salt, a dollar sign, and the tail of the digest for the salt's
      first eight bytes. */
  predicate IsEntry(md5: Hasher, password: seq<Byte>, salt: seq<Byte>, stored: seq<Byte>) {
    stored == [36, 97, 112, 114, 49, 36] + salt + [36]
              + Tail(FinalDigest(md5, password, if |salt| < 8 then salt else salt[..8]))
  }

  /** Accepted are exactly the texts written that way for the password. */
  lemma AcceptsExactly(md5: Hasher, password: seq<Byte>, stored: seq<Byte>)
    ensures Accepts(md5, password, stored) <==>
            exists salt :: DOLLAR !in salt && IsEntry(md5, password, salt, stored)
  {
    hide Tail, FinalDigest, SplitAtDollar;
    if Accepts(md5, password, stored) {
      SplitsBack(stored[|MAGIC|..]);
      var (salt, tail) := SplitAtDollar(stored[|MAGIC|..]).value;
      assert stored == MAGIC + stored[|MAGIC|..];
      assert stored == MAGIC + salt + [DOLLAR] + tail;
      TruncatedIs(salt);
      assert IsEntry(md5, password, salt, stored);
    }
    if salt :| DOLLAR !in salt && IsEntry(md5, password, salt, stored) {
      var tail := Tail(FinalDigest(md5, password, if |salt| < 8 then salt else salt[..8]));
      AfterMagic(salt, tail);
      SplitsAtFirst(salt, tail);
      TruncatedIs(salt);
    }
  }

  lemma TruncatedIs(salt: seq<Byte>)
    ensures Truncated(salt) == if |salt| < 8 then salt else salt[..8]
  {
    if |salt| == 8 {
      assert salt[..8] == salt;
    }
  }

  /** An entry written for a digest is accepted exactly when that digest is the
      one the password and the salt, cut to eight bytes, come to. */
  lemma AcceptsIffDigest(md5: Hasher, password: seq<Byte>, salt: seq<Byte>, d: Digest)
    requires DOLLAR !in salt
    ensures Accepts(md5, password, MAGIC + salt + [DOLLAR] + Tail(d)) <==>
            d == FinalDigest(md5, password, Truncated(salt))
  {
    hide Tail, ReadTail, FinalDigest, SplitAtDollar, Truncated;
    AfterMagic(salt, Tail(d));
    SplitsAtFirst(salt, Tail(d));
    TailRoundTrip(d);
    TailRoundTrip(FinalDigest(md5, password, Truncated(salt)));
  }
}
