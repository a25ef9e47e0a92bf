/** Keys, signing and opening (sections 5.1.5 to 5.1.7 of RFC 8032). */
module Signature {
  import opened Powers
  import opened Bits
  import opened Bytes
  import opened AbelianGroup
  import opened Edwards
  import opened PointOps
  import opened Encoding
  import opened ScalarMult
  import opened BaseMult
  import opened Sha512Spec
  import H = Sha512
  import S = Scalar
  import SB = ScalarBytes
  import O = ScalarOps

  // ---- masks on bytes ----

  lemma AndTopMask(x: nat, m: nat, n: nat, p: nat, ones: nat)
    requires n <= 8 && p == Pow2(n) && ones + 1 == Pow2(8 - n) && m == p * ones && x < p * (ones + 1)
    ensures And(x, m) == p * (x / p)
  {
    var y := x / p;
    QuotientBound(x, p, ones + 1);
    AllMask(y, ones, 8 - n);
    ShlValue(ones, n);
    ShrValue(x, n);
    ShlValue(y, n);
    AndAbove(x, ones, n);
  }

  method ClearLow3(x: Byte) returns (r: Byte)
    ensures r == x - x % 8
  {
    Pow2Table();
    assert Pow2(3) == 8 && Pow2(5) == 32;
    AndTopMask(x as int, 248, 3, 8, 31);
    r := And(x as int, 248);
  }

  method TopBitsClear(x: Byte) returns (r: bool)
    ensures r <==> x < 32
  {
    assert Pow2(5) == 32 && Pow2(3) == 8;
    AndTopMask(x as int, 224, 5, 32, 7);
    r := And(x as int, 224) == 0;
  }

  lemma ClampTop(y: nat, bit: nat)
    requires y < 128 && bit == 64
    ensures Or(y, bit) == 64 + y % 64
  {
    OneBit(y / 64);
    assert Pow2(6) == 64;
    OrSplit(y % 64, y / 64, 1, 1, 6, 64, y, bit, 64 + y % 64);
  }

  lemma LowSeven(x: nat, mask: nat)
    requires mask == 127
    ensures And(x, mask) == x % 128
  {
    assert Pow2(7) == 128;
    AndMask(x, 7);
  }

  method ClearTop(x: nat) returns (y: nat)
    ensures y == x % 128
  {
    var mask: nat := 127;
    LowSeven(x, mask);
    y := And(x, mask);
  }

  method SetSixth(y: nat) returns (r: nat)
    requires y < 128
    ensures r == 64 + y % 64
  {
    var bit: nat := 64;
    ClampTop(y, bit);
    r := Or(y, bit);
  }

  lemma Mod64(x: int)
    ensures (x % 128) % 64 == x % 64
  {
  }

  /** The top bit cleared and the second highest set. */
  method SetTop(x: Byte) returns (r: Byte)
    ensures r == 64 + x % 64
  {
    var y := ClearTop(x as int);
    Mod64(x as int);
    r := SetSixth(y);
  }

  lemma OneBit(b: nat)
    requires b <= 1
    ensures Or(b, 1) == 1
  {
    OrHalf(b, 1);
    OrNothing(0);
    HalvesEqual(Or(b, 1), 1);
  }

  // ---- keys and signatures as section 5.1 of RFC 8032 defines them, and what is accepted ----

  /** The low three bits of the first byte and the top bit of the last cleared, the second highest set. */
  function Clamp(b: seq<Byte>): (c: seq<Byte>)
    requires |b| == 32
    ensures |c| == 32
  {
    [b[0] - b[0] % 8] + b[1..31] + [64 + b[31] % 64]
  }

  /** A clamped scalar is a multiple of the cofactor 8, and its top bit is bit 254. */
  lemma ClampRange(b: seq<Byte>)
    requires |b| == 32
    ensures LE(Clamp(b)) % 8 == 0
    ensures 0x4000_0000_0000_0000_0000_0000_0000_0000_0000_0000_0000_0000_0000_0000_0000_0000 <= LE(Clamp(b))
         < 0x8000_0000_0000_0000_0000_0000_0000_0000_0000_0000_0000_0000_0000_0000_0000_0000
  {
    var c := Clamp(b);
    TopByte(c);
    assert LE(c) == c[0] + 256 * LE(c[1..]);
  }

  lemma EndBytes(b: seq<Byte>)
    requires |b| == 32
    ensures LE(b) == b[0] as int + 256 * LE(b[1..31])
      + 0x100_0000_0000_0000_0000_0000_0000_0000_0000_0000_0000_0000_0000_0000_0000_0000 * (b[31] as int)
    ensures 0 <= b[0] as int + 256 * LE(b[1..31])
      < 0x100_0000_0000_0000_0000_0000_0000_0000_0000_0000_0000_0000_0000_0000_0000_0000
  {
    TopByte(b);
    assert b[..31] == [b[0]] + b[1..31];
    LEConcat([b[0]], b[1..31]);
    PowExpOne(256);
    LESingle(b[0]);
  }

  lemma LESingle(x: Byte)
    ensures LE([x]) == x as int
  {
    assert [x][1..] == [];
  }

  lemma ClampedNumber(x: int, c: int, u: int, mid: int, t: int)
    requires 0 <= u < 256 && 0 <= mid && 0 <= t < 256
      && 0 <= u + 256 * mid < 0x100_0000_0000_0000_0000_0000_0000_0000_0000_0000_0000_0000_0000_0000_0000_0000
    requires x == u + 256 * mid + 0x100_0000_0000_0000_0000_0000_0000_0000_0000_0000_0000_0000_0000_0000_0000_0000 * t
    requires c == u - u % 8 + 256 * mid
      + 0x100_0000_0000_0000_0000_0000_0000_0000_0000_0000_0000_0000_0000_0000_0000_0000 * (64 + t % 64)
    ensures c == 0x4000_0000_0000_0000_0000_0000_0000_0000_0000_0000_0000_0000_0000_0000_0000_0000
      + 8 * ((x % 0x4000_0000_0000_0000_0000_0000_0000_0000_0000_0000_0000_0000_0000_0000_0000_0000) / 8)
  {
    var y := u + 256 * mid
      + 0x100_0000_0000_0000_0000_0000_0000_0000_0000_0000_0000_0000_0000_0000_0000_0000 * (t % 64);
    ModUnique(x, 0x4000_0000_0000_0000_0000_0000_0000_0000_0000_0000_0000_0000_0000_0000_0000_0000, t / 64, y);
    ModUnique(y, 8, u / 8 + 32 * mid
      + 0x20_0000_0000_0000_0000_0000_0000_0000_0000_0000_0000_0000_0000_0000_0000_0000 * (t % 64), u % 8);
  }

  /** What clamping makes of the number: bit 254 set, those above it and the low three cleared, the others kept. */
  lemma ClampValue(b: seq<Byte>)
    requires |b| == 32
    ensures LE(Clamp(b)) == 0x4000_0000_0000_0000_0000_0000_0000_0000_0000_0000_0000_0000_0000_0000_0000_0000
      + 8 * ((LE(b) % 0x4000_0000_0000_0000_0000_0000_0000_0000_0000_0000_0000_0000_0000_0000_0000_0000) / 8)
  {
    var c := Clamp(b);
    EndBytes(b);
    EndBytes(c);
    assert c[1..31] == b[1..31];
    ClampedNumber(LE(b), LE(c), b[0] as int, LE(b[1..31]), b[31] as int);
  }

  ghost function SecretScalar(k: seq<nat>, sk: seq<Byte>): nat
    requires |k| == 80
  {
    LE(Clamp(Digest(k, sk)[..32]))
  }

  ghost function Nonce(k: seq<nat>, sk: seq<Byte>, m: seq<Byte>): nat
    requires |k| == 80
  {
    LE(Digest(k, Digest(k, sk)[32..] + m)) % S.M
  }

  ghost function Challenge(k: seq<nat>, r: seq<Byte>, pk: seq<Byte>, m: seq<Byte>): nat
    requires |k| == 80
  {
    LE(Digest(k, r + pk + m)) % S.M
  }

  ghost function PublicKeyOf(k: seq<nat>, sk: seq<Byte>, g: Group<CurvePoint>, base: CurvePoint): seq<Byte>
    requires |k| == 80
  {
    Encode(Times(g, SecretScalar(k, sk), base))
  }

  ghost function CommitmentOf(k: seq<nat>, m: seq<Byte>, sk: seq<Byte>, g: Group<CurvePoint>,
        base: CurvePoint): seq<Byte>
    requires |k| == 80
  {
    Encode(Times(g, Nonce(k, sk, m), base))
  }

  /** S = r + ha modulo m */
  function Respond(r: nat, h: nat, a: nat, m: nat): nat
    requires m > 0
  {
    (r + h * a) % m
  }

  ghost function ResponseOf(k: seq<nat>, m: seq<Byte>, sk: seq<Byte>, pk: seq<Byte>, g: Group<CurvePoint>,
        base: CurvePoint): nat
    requires |k| == 80
  {
    Respond(Nonce(k, sk, m), Challenge(k, CommitmentOf(k, m, sk, g, base), pk, m), SecretScalar(k, sk), S.M)
  }

  ghost function SignatureOf(k: seq<nat>, m: seq<Byte>, sk: seq<Byte>, pk: seq<Byte>, g: Group<CurvePoint>,
        base: CurvePoint): (rs: seq<Byte>)
    requires |k| == 80
    ensures |rs| == 64
  {
    CommitmentOf(k, m, sk, g, base) + ToLE(ResponseOf(k, m, sk, pk, g, base), 32)
  }

  /**
   * The test of the source: the key decodes to a point A, the top three bits of S are clear, and [S]B - [h]A encodes to
   * R.
   * Section 5.1.7 of RFC 8032 also asks for S below m, which is left to the caller.
   */
  ghost predicate Accepts(k: seq<nat>, m: seq<Byte>, pk: seq<Byte>, rs: seq<Byte>, g: Group<CurvePoint>,
        base: CurvePoint)
    requires |k| == 80 && |pk| == 32 && |rs| == 64
  {
    rs[63] < 32 && exists a: CurvePoint :: NegativeOf(pk, a) && Matches(k, m, pk, rs, g, base, a)
  }

  ghost predicate Matches(k: seq<nat>, m: seq<Byte>, pk: seq<Byte>, rs: seq<Byte>, g: Group<CurvePoint>,
        base: CurvePoint, a: CurvePoint)
    requires |k| == 80 && |pk| == 32 && |rs| == 64
  {
    Encode(Mix(g, Challenge(k, rs[..32], pk, m), a, LE(rs[32..]) % S.M, base)) == rs[..32]
  }

  lemma MatchesExactly(k: seq<nat>, m: seq<Byte>, pk: seq<Byte>, rs: seq<Byte>, g: Group<CurvePoint>,
        base: CurvePoint, a: CurvePoint)
    requires |k| == 80 && |pk| == 32 && |rs| == 64
    ensures Matches(k, m, pk, rs, g, base, a)
      <==> (Encode(Op(g, Times(g, LE(Digest(k, rs[..32] + pk + m)) % S.M, a), Times(g, LE(rs[32..]) % S.M, base)))
            == rs[..32])
  {
  }

  /** Acceptance from the digest: the challenge is made of R, A and the message. */
  lemma AcceptsExactly(k: seq<nat>, m: seq<Byte>, pk: seq<Byte>, rs: seq<Byte>, g: Group<CurvePoint>, base: CurvePoint)
    requires |k| == 80 && |pk| == 32 && |rs| == 64
    ensures Accepts(k, m, pk, rs, g, base) <==> rs[63] < 32 && exists a: CurvePoint ::
      NegativeOf(pk, a)
      && Encode(Op(g, Times(g, LE(Digest(k, rs[..32] + pk + m)) % S.M, a), Times(g, LE(rs[32..]) % S.M, base)))
        == rs[..32]
  {
    forall a: CurvePoint {
      MatchesExactly(k, m, pk, rs, g, base, a);
    }
  }

  lemma CommitmentHalf(k: seq<nat>, m: seq<Byte>, sk: seq<Byte>, pk: seq<Byte>, g: Group<CurvePoint>,
        base: CurvePoint)
    requires |k| == 80
    ensures SignatureOf(k, m, sk, pk, g, base)[..32]
      == Encode(Times(g, LE(Digest(k, Digest(k, sk)[32..] + m)) % S.M, base))
  {
    var c, s := CommitmentOf(k, m, sk, g, base), ResponseOf(k, m, sk, pk, g, base);
    assert (c + ToLE(s, 32))[..32] == c;
  }

  lemma RespondIs(r: nat, h: nat, a: nat, m: nat)
    requires m > 0
    ensures Respond(r, h, a, m) == (r + h * a) % m && Respond(r, h, a, m) < m
  {
  }

  lemma ResponseIs(k: seq<nat>, m: seq<Byte>, sk: seq<Byte>, pk: seq<Byte>, g: Group<CurvePoint>, base: CurvePoint,
        c: seq<Byte>, r: nat, h: nat, a: nat)
    requires |k| == 80 && c == CommitmentOf(k, m, sk, g, base) && r == LE(Digest(k, Digest(k, sk)[32..] + m)) % S.M
      && h == LE(Digest(k, c + pk + m)) % S.M && a == LE(Clamp(Digest(k, sk)[..32]))
    ensures ResponseOf(k, m, sk, pk, g, base) == Respond(r, h, a, S.M)
  {
  }

  lemma ResponseHalf(k: seq<nat>, m: seq<Byte>, sk: seq<Byte>, pk: seq<Byte>, g: Group<CurvePoint>, base: CurvePoint,
        rs: seq<Byte>, r: nat, h: nat, a: nat, order: nat)
    requires |k| == 80 && rs == SignatureOf(k, m, sk, pk, g, base) && r == LE(Digest(k, Digest(k, sk)[32..] + m)) % S.M
      && h == LE(Digest(k, rs[..32] + pk + m)) % S.M && a == LE(Clamp(Digest(k, sk)[..32])) && order == S.M
    ensures LE(rs[32..]) == (r + h * a) % order
  {
    var c, s := CommitmentOf(k, m, sk, g, base), ResponseOf(k, m, sk, pk, g, base);
    assert rs[..32] == c && rs[32..] == ToLE(s, 32);
    ResponseIs(k, m, sk, pk, g, base, c, r, h, a);
    RespondIs(r, h, a, order);
    ResponseTop(s, ToLE(s, 32));
  }

  /**
   * The two halves of a signature from the digest. R comes from the second half of the expanded key and the message, S
   * from that nonce, the digest of R, A and the message, and the clamped first half.
   */
  lemma SignatureHalves(k: seq<nat>, m: seq<Byte>, sk: seq<Byte>, pk: seq<Byte>, g: Group<CurvePoint>, base: CurvePoint)
    requires |k| == 80
    ensures var rs, e := SignatureOf(k, m, sk, pk, g, base), Digest(k, sk);
            var r, h := LE(Digest(k, e[32..] + m)) % S.M, LE(Digest(k, rs[..32] + pk + m)) % S.M;
            && rs[..32] == Encode(Times(g, r, base))
            && LE(rs[32..]) == (r + h * LE(Clamp(e[..32]))) % S.M
  {
    var rs, e := SignatureOf(k, m, sk, pk, g, base), Digest(k, sk);
    CommitmentHalf(k, m, sk, pk, g, base);
    ResponseHalf(k, m, sk, pk, g, base, rs, LE(Digest(k, e[32..] + m)) % S.M,
      LE(Digest(k, rs[..32] + pk + m)) % S.M, LE(Clamp(e[..32])), S.M);
  }

  /** The public key from the digest of the secret one. */
  lemma PublicKeyExactly(k: seq<nat>, sk: seq<Byte>, g: Group<CurvePoint>, base: CurvePoint)
    requires |k| == 80
    ensures var top := 0x4000_0000_0000_0000_0000_0000_0000_0000_0000_0000_0000_0000_0000_0000_0000_0000;
            PublicKeyOf(k, sk, g, base)
              == Encode(Times(g, top + 8 * ((LE(Digest(k, sk)[..32]) % top) / 8), base))
  {
    ClampValue(Digest(k, sk)[..32]);
  }

  // ---- a signature opens ----

  lemma TimesMod<G(!new)>(g: Group<G>, n: int, m: nat, x: G)
    requires Abelian(g) && m > 0 && Times(g, m, x) == g.zero
    ensures Times(g, n % m, x) == Times(g, n, x)
  {
    var q := n / m;
    assert n == q * m + n % m;
    TimesProduct(g, q, m, x);
    TimesZero(g, q);
    TimesAdd(g, q * m, n % m, x);
    Zero(g, Times(g, n % m, x));
  }

  lemma CancelsSum<G(!new)>(g: Group<G>, r: int, h: int, e: int, s: int, x: G, p: G)
    requires Abelian(g) && Times(g, s, x) == Times(g, r + e, x) && Times(g, e, x) == Times(g, h, p)
    ensures Mix(g, h, Inv(g, p), s, x) == Times(g, r, x)
  {
    TimesNeg(g, h, p);
    TimesNeg(g, e, x);
    TimesAdd(g, -e, r + e, x);
    assert -e + (r + e) == r;
  }

  /** [h](-[a]B) + [s]B = [r]B for s = r + ha modulo m. */
  lemma Cancels<G(!new)>(g: Group<G>, r: int, h: int, a: int, s: int, x: G)
    requires Abelian(g) && Times(g, s, x) == Times(g, r + h * a, x)
    ensures Mix(g, h, Inv(g, Times(g, a, x)), s, x) == Times(g, r, x)
  {
    TimesProduct(g, h, a, x);
    CancelsSum(g, r, h, h * a, s, x, Times(g, a, x));
  }

  lemma SmallMod(s: int, m: int)
    requires 0 <= s < m
    ensures s % m == s
  {
  }

  lemma ResponseTop(s: nat, b: seq<Byte>)
    requires s < S.M && b == ToLE(s, 32)
    ensures LE(b) == s && b[31] < 32
  {
    Pow256To32();
    LEToLE(s, 32);
    TopByte(b);
  }

  lemma SignedMatches(k: seq<nat>, m: seq<Byte>, pk: seq<Byte>, rs: seq<Byte>, g: Group<CurvePoint>, base: CurvePoint,
                      r: nat, h: nat, s: nat, c: seq<Byte>, n: CurvePoint)
    requires |k| == 80 && |pk| == 32 && c == Encode(Times(g, r, base)) && rs == c + ToLE(s, 32)
      && h == Challenge(k, c, pk, m)
    requires s < S.M && Mix(g, h, n, s, base) == Times(g, r, base)
    ensures |rs| == 64 && rs[63] < 32 && Matches(k, m, pk, rs, g, base, n)
  {
    ResponseTop(s, ToLE(s, 32));
    assert rs[..32] == c && rs[32..] == ToLE(s, 32);
    SmallMod(s, S.M);
  }

  lemma ResponseCombines<G(!new)>(r: nat, h: nat, a: nat, s: nat, m: nat, g: Group<G>, base: G)
    requires Abelian(g) && m > 0 && Times(g, m, base) == g.zero && s == Respond(r, h, a, m)
    ensures s < m && Mix(g, h, Inv(g, Times(g, a, base)), s, base) == Times(g, r, base)
  {
    TimesMod(g, r + h * a, m, base);
    Cancels(g, r, h, a, s, base);
  }

  /** Every signature made with the matching public key is accepted, for every secret key and message. */
  lemma SignedIsAccepted(k: seq<nat>, m: seq<Byte>, sk: seq<Byte>, g: Group<CurvePoint>, base: CurvePoint)
    requires |k| == 80 && CurveGroup(g) && Times(g, S.M, base) == g.zero
    ensures var pk := PublicKeyOf(k, sk, g, base);
            |pk| == 32 && Accepts(k, m, pk, SignatureOf(k, m, sk, pk, g, base), g, base)
  {
    var a, r := SecretScalar(k, sk), Nonce(k, sk, m);
    var p := Times(g, a, base);
    var pk, c := PublicKeyOf(k, sk, g, base), CommitmentOf(k, m, sk, g, base);
    var n: CurvePoint := Inv(g, p);
    var h, s := Challenge(k, c, pk, m), ResponseOf(k, m, sk, pk, g, base);
    ResponseCombines(r, h, a, s, S.M, g, base);
    SignedMatches(k, m, pk, SignatureOf(k, m, sk, pk, g, base), g, base, r, h, s, c, n);
    EncodeNegative(p);
    NegIsInverse(g, p);
    assert NegativeOf(pk, n);
  }

  // ---- the functions of the source ----

  /** What the constants of the source are taken to hold. */
  ghost predicate Setup(k: seq<nat>, table: seq<seq<Byte>>, sliding: seq<GeNiels>, g: Group<CurvePoint>,
        base: CurvePoint) {
    && |k| == 80 && CurveGroup(g) && Fermat() && BaseTable(table, g, base) && SecondTable(sliding, g, base)
    && Times(g, S.M, base) == g.zero
  }

  lemma ClampEntries(h: seq<Byte>, b0: Byte, b31: Byte)
    requires |h| == 64 && b0 == h[0] - h[0] % 8 && b31 == 64 + h[31] % 64
    ensures h[0 := b0][31 := b31][..32] == Clamp(h[..32]) && h[0 := b0][31 := b31][32..] == h[32..]
  {
  }

  /** ed25519_extsk */
  method Extsk(k: seq<nat>, sk: seq<Byte>) returns (ext: seq<Byte>)
    requires |k| == 80
    ensures |ext| == 64 && ext[..32] == Clamp(Digest(k, sk)[..32]) && ext[32..] == Digest(k, sk)[32..]
  {
    var hash := H.Hash(k, sk);
    var b0 := ClearLow3(hash[0]);
    var b31 := SetTop(hash[31]);
    ext := hash[0 := b0][31 := b31];
    ClampEntries(hash, b0, b31);
  }

  /** ed25519_hram */
  method Hram(k: seq<nat>, rs: seq<Byte>, pk: seq<Byte>, m: seq<Byte>) returns (hash: seq<Byte>)
    requires |k| == 80 && |rs| >= 32
    ensures hash == Digest(k, rs[..32] + pk + m)
  {
    hash := H.HashThree(k, rs[..32], pk, m);
  }

  lemma ReducedBelow(s: S.Limbs)
    requires S.Reduced(s)
    ensures Below255(s)
  {
  }

  /** [s]B, encoded. */
  method EncodeMultiple(table: seq<seq<Byte>>, s: S.Limbs, ghost g: Group<CurvePoint>,
        ghost base: CurvePoint) returns (r: seq<Byte>)
    requires CurveGroup(g) && Fermat() && BaseTable(table, g, base) && S.Reduced(s)
    ensures r == Encode(Times(g, S.Val(s), base))
  {
    ReducedBelow(s);
    var p := ScalarmultBase(table, s, g, base);
    FullIsPartial(p, Times(g, S.Val(s), base));
    r := Pack(p, Times(g, S.Val(s), base));
  }

  /** ed25519_publickey */
  method PublicKey(k: seq<nat>, table: seq<seq<Byte>>, sk: seq<Byte>, ghost sliding: seq<GeNiels>,
        ghost g: Group<CurvePoint>, ghost base: CurvePoint)
    returns (pk: seq<Byte>)
    requires Setup(k, table, sliding, g, base)
    ensures pk == PublicKeyOf(k, sk, g, base)
    ensures var top := 0x4000_0000_0000_0000_0000_0000_0000_0000_0000_0000_0000_0000_0000_0000_0000_0000;
            pk == Encode(Times(g, top + 8 * ((LE(Digest(k, sk)[..32]) % top) / 8), base))
  {
    var ext := Extsk(k, sk);
    var a := SB.Expand256(ext[..32]);
    pk := EncodeMultiple(table, a, g, base);
    TimesMod(g, SecretScalar(k, sk), S.M, base);
    PublicKeyExactly(k, sk, g, base);
  }

  lemma RespondReduced(r: nat, h: nat, a: nat, a': nat, p: nat, m: nat)
    requires m > 0 && a' == a % m && p == (h * a') % m
    ensures (p + r) % m == Respond(r, h, a, m)
  {
    var q, t := a / m, (h * a') / m;
    assert a == m * q + a';
    assert h * (m * q) == m * (h * q) by { MulAssoc(h, m, q); MulAssoc(m, h, q); }
    assert r + h * a == (p + r) + m * (h * q + t);
    var u := (p + r) / m;
    ModUnique(r + h * a, m, u + h * q + t, (p + r) % m);
  }

  /** S from the nonce, the challenge and the clamped secret. */
  method Response(r: S.Limbs, hram: seq<Byte>, secret: seq<Byte>) returns (b: seq<Byte>)
    requires S.Reduced(r) && |hram| == 64 && |secret| == 32
    ensures b == ToLE(Respond(S.Val(r), LE(hram) % S.M, LE(secret), S.M), 32)
  {
    var s := SB.Expand256(hram);
    var a := SB.Expand256(secret);
    O.ReducedBelow256(s);
    O.ReducedBelow256(a);
    RespondReduced(S.Val(r), S.Val(s), LE(secret), S.Val(a), (S.Val(s) * S.Val(a)) % S.M, S.M);
    s := O.Mul256(s, a);
    s := O.Add256(s, r);
    O.ReducedBelow256(s);
    b := SB.Contract256(s);
    ToLEOfLE(b);
  }

  /** The nonce r = H(prefix, m) modulo m. */
  method NonceOf(k: seq<nat>, prefix: seq<Byte>, m: seq<Byte>) returns (r: S.Limbs)
    requires |k| == 80
    ensures S.Reduced(r) && S.Val(r) == LE(Digest(k, prefix + m)) % S.M
  {
    var hashr := H.HashTwo(k, prefix, m);
    r := SB.Expand256(hashr);
  }

  /** R and S, from the expanded key and the message. */
  method MakeSignature(k: seq<nat>, table: seq<seq<Byte>>, m: seq<Byte>, sk: seq<Byte>, pk: seq<Byte>,
                       ghost sliding: seq<GeNiels>, ghost g: Group<CurvePoint>, ghost base: CurvePoint)
    returns (rs: seq<Byte>)
    requires Setup(k, table, sliding, g, base)
    ensures rs == SignatureOf(k, m, sk, pk, g, base)
  {
    var ext := Extsk(k, sk);
    var r := NonceOf(k, ext[32..], m);
    var c := EncodeMultiple(table, r, g, base);
    var hram := Hram(k, c, pk, m);
    assert c[..32] == c;
    var s := Response(r, hram, ext[..32]);
    rs := c + s;
  }

  /** ed25519_sign */
  method Sign(k: seq<nat>, table: seq<seq<Byte>>, m: seq<Byte>, sk: seq<Byte>, pk: seq<Byte>,
              ghost sliding: seq<GeNiels>, ghost g: Group<CurvePoint>, ghost base: CurvePoint)
    returns (rs: seq<Byte>)
    requires Setup(k, table, sliding, g, base)
    ensures rs == SignatureOf(k, m, sk, pk, g, base)
    ensures var e := Digest(k, sk);
            var r, h := LE(Digest(k, e[32..] + m)) % S.M, LE(Digest(k, rs[..32] + pk + m)) % S.M;
            && rs[..32] == Encode(Times(g, r, base))
            && LE(rs[32..]) == (r + h * LE(Clamp(e[..32]))) % S.M
  {
    rs := MakeSignature(k, table, m, sk, pk, sliding, g, base);
    SignatureHalves(k, m, sk, pk, g, base);
  }

  lemma AcceptsUnique(k: seq<nat>, m: seq<Byte>, pk: seq<Byte>, rs: seq<Byte>, g: Group<CurvePoint>, base: CurvePoint,
        a: CurvePoint)
    requires |k| == 80 && |pk| == 32 && |rs| == 64 && NoZeroDivisors() && NegativeOf(pk, a)
    ensures Accepts(k, m, pk, rs, g, base) <==> rs[63] < 32 && Matches(k, m, pk, rs, g, base, a)
  {
    if Accepts(k, m, pk, rs, g, base) {
      var b: CurvePoint :| NegativeOf(pk, b) && Matches(k, m, pk, rs, g, base, b);
      NegativeUnique(pk, a, b);
    }
  }

  /** SB - H(R, A, m)A, encoded and compared with R. */
  method CheckEquation(k: seq<nat>, sliding: seq<GeNiels>, m: seq<Byte>, pk: seq<Byte>, rs: seq<Byte>, a: Ge,
                       ghost g: Group<CurvePoint>, ghost base: CurvePoint, ghost pt: CurvePoint)
    returns (same: bool)
    requires |k| == 80 && |pk| == 32 && |rs| == 64 && CurveGroup(g) && Fermat() && SecondTable(sliding, g, base)
      && Full(a, pt)
    ensures same <==> Matches(k, m, pk, rs, g, base, pt)
  {
    var hash := Hram(k, rs, pk, m);
    var hram := SB.Expand256(hash);
    var s := SB.Expand256(rs[32..]);
    ReducedBelow(hram);
    ReducedBelow(s);
    var r := DoubleScalarmult(a, hram, s, sliding, g, pt, base);
    var checkR := Pack(r, Mix(g, S.Val(hram), pt, S.Val(s), base));
    var v := Verify(rs, checkR, 32);
    assert checkR[..32] == checkR;
    same := v != 0;
  }

  /** ed25519_sign_open: 0 exactly for the signatures that verify, and -1 otherwise. */
  method SignOpen(k: seq<nat>, sliding: seq<GeNiels>, m: seq<Byte>, pk: seq<Byte>, rs: seq<Byte>,
                  ghost table: seq<seq<Byte>>, ghost g: Group<CurvePoint>, ghost base: CurvePoint)
    returns (r: int)
    requires Setup(k, table, sliding, g, base) && |pk| == 32 && |rs| == 64
    ensures r == if Accepts(k, m, pk, rs, g, base) then 0 else -1
    ensures r == 0 <==> rs[63] < 32 && exists a: CurvePoint ::
      NegativeOf(pk, a)
      && Encode(Op(g, Times(g, LE(Digest(k, rs[..32] + pk + m)) % S.M, a), Times(g, LE(rs[32..]) % S.M, base)))
        == rs[..32]
  {
    AcceptsExactly(k, m, pk, rs, g, base);
    var clear := TopBitsClear(rs[63]);
    if !clear {
      return -1;
    }
    var ok, a := UnpackNegative(pk);
    if !ok {
      return -1;
    }
    ghost var pt: CurvePoint :| NegativeOf(pk, pt) && Full(a, pt);
    AcceptsUnique(k, m, pk, rs, g, base, pt);
    var same := CheckEquation(k, sliding, m, pk, rs, a, g, base, pt);
    r := if same then 0 else -1;
  }
}
