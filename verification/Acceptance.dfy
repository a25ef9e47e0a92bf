/** Which signatures are accepted besides the one that was made. */
module Acceptance {
  import opened Powers
  import opened Bits
  import opened Bytes
  import opened AbelianGroup
  import opened Edwards
  import opened Encoding
  import opened Sha512Spec
  import opened Signature
  import opened MultiScalar
  import opened NumberTheory
  import S = Scalar

  /** Verification reads S modulo m, so another S below 2^253 with the same residue is accepted too. */
  lemma SameResidueAccepted(k: seq<nat>, m: seq<Byte>, pk: seq<Byte>, rs: seq<Byte>, rs': seq<Byte>,
        g: Group<CurvePoint>, base: CurvePoint)
    requires |k| == 80 && |pk| == 32 && |rs| == |rs'| == 64 && Accepts(k, m, pk, rs, g, base)
    requires rs'[..32] == rs[..32] && rs'[63] < 32 && LE(rs'[32..]) % S.M == LE(rs[32..]) % S.M
    ensures Accepts(k, m, pk, rs', g, base)
  {
    var a: CurvePoint :| NegativeOf(pk, a) && Matches(k, m, pk, rs, g, base, a);
    assert Matches(k, m, pk, rs', g, base, a);
  }

  /** The response s to the commitment of rs, for any s below 2^253 with the same residue modulo m. */
  lemma OtherResponse(k: seq<nat>, m: seq<Byte>, pk: seq<Byte>, rs: seq<Byte>, s: nat, g: Group<CurvePoint>,
        base: CurvePoint)
    requires |k| == 80 && |pk| == 32 && |rs| == 64 && Accepts(k, m, pk, rs, g, base)
    requires s < 0x2000_0000_0000_0000_0000_0000_0000_0000_0000_0000_0000_0000_0000_0000_0000_0000
    requires s % S.M == LE(rs[32..]) % S.M && s != LE(rs[32..])
    ensures var rs' := rs[..32] + ToLE(s, 32);
            |rs'| == 64 && rs'[..32] == rs[..32] && rs' != rs && Accepts(k, m, pk, rs', g, base)
  {
    var c := ToLE(s, 32);
    BelowTop(s, c);
    var rs' := rs[..32] + c;
    assert rs'[..32] == rs[..32] && rs'[32..] == c && rs'[63] == c[31];
    SameResidueAccepted(k, m, pk, rs, rs', g, base);
  }

  /** Verification asks for S below 2^253, not below m, so the next representative of S is accepted too. */
  lemma NextResponse(k: seq<nat>, m: seq<Byte>, pk: seq<Byte>, rs: seq<Byte>, g: Group<CurvePoint>, base: CurvePoint)
    requires |k| == 80 && |pk| == 32 && |rs| == 64 && Accepts(k, m, pk, rs, g, base)
    requires LE(rs[32..]) + S.M < 0x2000_0000_0000_0000_0000_0000_0000_0000_0000_0000_0000_0000_0000_0000_0000_0000
    ensures var rs' := rs[..32] + ToLE(LE(rs[32..]) + S.M, 32);
            |rs'| == 64 && rs'[..32] == rs[..32] && rs' != rs && Accepts(k, m, pk, rs', g, base)
  {
    NextResidue(LE(rs[32..]), S.M);
    OtherResponse(k, m, pk, rs, LE(rs[32..]) + S.M, g, base);
  }

  /** An accepted S from m on comes with the representative before it. */
  lemma PreviousResponse(k: seq<nat>, m: seq<Byte>, pk: seq<Byte>, rs: seq<Byte>, g: Group<CurvePoint>,
        base: CurvePoint)
    requires |k| == 80 && |pk| == 32 && |rs| == 64 && Accepts(k, m, pk, rs, g, base)
    requires LE(rs[32..]) >= S.M
    ensures var rs' := rs[..32] + ToLE(LE(rs[32..]) - S.M, 32);
            |rs'| == 64 && rs'[..32] == rs[..32] && rs' != rs && Accepts(k, m, pk, rs', g, base)
  {
    TopByte(rs[32..]);
    NextResidue(LE(rs[32..]) - S.M, S.M);
    OtherResponse(k, m, pk, rs, LE(rs[32..]) - S.M, g, base);
  }

  lemma BelowTop(n: nat, b: seq<Byte>)
    requires n < 0x2000_0000_0000_0000_0000_0000_0000_0000_0000_0000_0000_0000_0000_0000_0000_0000 && b == ToLE(n, 32)
    ensures LE(b) == n && b[31] < 32
  {
    Pow256To32();
    LEToLE(n, 32);
    TopByte(b);
  }

  lemma NextResidue(s: nat, m: nat)
    requires m > 0
    ensures (s + m) % m == s % m
  {
    ModUnique(s + m, m, s / m + 1, s % m);
  }

  /** Different points have different encodings. */
  lemma EncodeInjective(g: Group<CurvePoint>, p: CurvePoint, q: CurvePoint)
    requires CurveGroup(g) && Encode(p) == Encode(q)
    ensures p == q
  {
    EncodeNegative(p);
    EncodeNegative(q);
    NegIsInverse(g, p);
    NegIsInverse(g, q);
    NegativeUnique(Encode(p), Inv(g, p), Inv(g, q));
    NegNeg(g, p);
    NegNeg(g, q);
  }

  lemma SameMultiple<G(!new)>(g: Group<G>, h: int, a: G, s: nat, t: nat, x: G, m: nat)
    requires Abelian(g) && Prime(m) && Times(g, m, x) == g.zero && x != g.zero && s < m && t < m
    requires Mix(g, h, a, s, x) == Mix(g, h, a, t, x)
    ensures s == t
  {
    Cancel(g, Times(g, h, a), Times(g, s, x), Times(g, t, x));
    if s != t {
      TimesAdd(g, s - t, t, x);
      Comm(g, Times(g, s - t, x), Times(g, t, x));
      Zero(g, Times(g, t, x));
      Cancel(g, Times(g, t, x), Times(g, s - t, x), g.zero);
      NoSmallMultiple(g, s - t, m, x);
    }
  }

  /** Two messages signed with one key get the same R exactly if the digests that make the nonces agree modulo m. */
  lemma SameCommitment(k: seq<nat>, m: seq<Byte>, m': seq<Byte>, sk: seq<Byte>, pk: seq<Byte>, g: Group<CurvePoint>,
        base: CurvePoint)
    requires |k| == 80 && CurveGroup(g) && Prime(S.M) && Times(g, S.M, base) == g.zero && base != g.zero
    ensures SignatureOf(k, m, sk, pk, g, base)[..32] == SignatureOf(k, m', sk, pk, g, base)[..32]
      <==> LE(Digest(k, Digest(k, sk)[32..] + m)) % S.M == LE(Digest(k, Digest(k, sk)[32..] + m')) % S.M
  {
    var r, r' := LE(Digest(k, Digest(k, sk)[32..] + m)) % S.M, LE(Digest(k, Digest(k, sk)[32..] + m')) % S.M;
    CommitmentHalf(k, m, sk, pk, g, base);
    CommitmentHalf(k, m', sk, pk, g, base);
    if Encode(Times(g, r, base)) == Encode(Times(g, r', base)) {
      EncodeInjective(g, Times(g, r, base), Times(g, r', base));
      SameMultiple(g, 0, base, r, r', base, S.M);
    }
  }

  /** The responses that are accepted for a commitment: those below 2^253 with one residue modulo m, and no others. */
  lemma Responses(k: seq<nat>, m: seq<Byte>, pk: seq<Byte>, rs: seq<Byte>, rs': seq<Byte>, g: Group<CurvePoint>,
        base: CurvePoint)
    requires |k| == 80 && |pk| == 32 && |rs| == |rs'| == 64 && CurveGroup(g) && Prime(S.M)
      && Times(g, S.M, base) == g.zero && base != g.zero
    requires Accepts(k, m, pk, rs, g, base) && rs'[..32] == rs[..32]
    ensures Accepts(k, m, pk, rs', g, base) <==> rs'[63] < 32 && LE(rs'[32..]) % S.M == LE(rs[32..]) % S.M
  {
    if Accepts(k, m, pk, rs', g, base) {
      var a: CurvePoint :| NegativeOf(pk, a) && Matches(k, m, pk, rs, g, base, a);
      AcceptsUnique(k, m, pk, rs', g, base, a);
      var h, s, t := Challenge(k, rs[..32], pk, m), LE(rs[32..]) % S.M, LE(rs'[32..]) % S.M;
      EncodeInjective(g, Mix(g, h, a, s, base), Mix(g, h, a, t, base));
      SameMultiple(g, h, a, s, t, base, S.M);
    } else if rs'[63] < 32 && LE(rs'[32..]) % S.M == LE(rs[32..]) % S.M {
      SameResidueAccepted(k, m, pk, rs, rs', g, base);
    }
  }

  /** Below m, which is what callers ask for, there is only one response to a commitment. */
  lemma ResponseUnique(k: seq<nat>, m: seq<Byte>, pk: seq<Byte>, rs: seq<Byte>, rs': seq<Byte>, g: Group<CurvePoint>,
        base: CurvePoint)
    requires |k| == 80 && |pk| == 32 && |rs| == |rs'| == 64 && CurveGroup(g) && Prime(S.M)
      && Times(g, S.M, base) == g.zero && base != g.zero
    requires Accepts(k, m, pk, rs, g, base) && Accepts(k, m, pk, rs', g, base)
    requires rs[..32] == rs'[..32] && LE(rs[32..]) < S.M && LE(rs'[32..]) < S.M
    ensures rs == rs'
  {
    Responses(k, m, pk, rs, rs', g, base);
    SmallMod(LE(rs[32..]), S.M);
    SmallMod(LE(rs'[32..]), S.M);
    SameSignature(rs, rs');
  }

  lemma SameSignature(rs: seq<Byte>, rs': seq<Byte>)
    requires |rs| == |rs'| == 64 && rs[..32] == rs'[..32] && LE(rs[32..]) == LE(rs'[32..])
    ensures rs == rs'
  {
    LEUnique(rs[32..], rs'[32..]);
    assert rs == rs[..32] + rs[32..] && rs' == rs'[..32] + rs'[32..];
  }

  /** No other signature with the commitment of rs is accepted. */
  ghost predicate OnlyResponse(k: seq<nat>, m: seq<Byte>, pk: seq<Byte>, rs: seq<Byte>, g: Group<CurvePoint>,
        base: CurvePoint)
    requires |k| == 80 && |pk| == 32 && |rs| == 64
  {
    forall rs': seq<Byte> :: |rs'| == 64 && rs'[..32] == rs[..32] && Accepts(k, m, pk, rs', g, base) ==> rs' == rs
  }

  /** S has one representative below n exactly if it lies below m and S + m does not lie below n. */
  lemma OneRepresentative(s: nat, t: nat, m: nat, n: nat)
    requires m > 0 && s % m == t % m && n - m <= s < m && t < n
    ensures s == t
  {
    SmallMod(s, m);
    var q := t / m;
    assert t == m * q + s;
    if q > 0 {
      MulMono(m, 1, q);
    }
  }

  lemma OnlyOne(k: seq<nat>, m: seq<Byte>, pk: seq<Byte>, rs: seq<Byte>, rs': seq<Byte>, g: Group<CurvePoint>,
        base: CurvePoint)
    requires |k| == 80 && |pk| == 32 && |rs| == |rs'| == 64 && CurveGroup(g) && Prime(S.M)
      && Times(g, S.M, base) == g.zero && base != g.zero
    requires Accepts(k, m, pk, rs, g, base) && Accepts(k, m, pk, rs', g, base) && rs'[..32] == rs[..32]
    requires 0x2000_0000_0000_0000_0000_0000_0000_0000_0000_0000_0000_0000_0000_0000_0000_0000 - S.M
      <= LE(rs[32..]) < S.M
    ensures rs' == rs
  {
    Responses(k, m, pk, rs, rs', g, base);
    TopByte(rs'[32..]);
    OneRepresentative(LE(rs[32..]), LE(rs'[32..]), S.M,
      0x2000_0000_0000_0000_0000_0000_0000_0000_0000_0000_0000_0000_0000_0000_0000_0000);
    SameSignature(rs, rs');
  }

  /** When the response to a commitment is the only one: exactly if S is below m and S + m is not below 2^253. */
  lemma OnlyResponseExact(k: seq<nat>, m: seq<Byte>, pk: seq<Byte>, rs: seq<Byte>, g: Group<CurvePoint>,
        base: CurvePoint)
    requires |k| == 80 && |pk| == 32 && |rs| == 64 && CurveGroup(g) && Prime(S.M)
      && Times(g, S.M, base) == g.zero && base != g.zero
    requires Accepts(k, m, pk, rs, g, base)
    ensures OnlyResponse(k, m, pk, rs, g, base)
      <==> 0x2000_0000_0000_0000_0000_0000_0000_0000_0000_0000_0000_0000_0000_0000_0000_0000 - S.M <= LE(rs[32..]) < S.M
  {
    var s := LE(rs[32..]);
    if s + S.M < 0x2000_0000_0000_0000_0000_0000_0000_0000_0000_0000_0000_0000_0000_0000_0000_0000 {
      NextResponse(k, m, pk, rs, g, base);
    } else if s >= S.M {
      PreviousResponse(k, m, pk, rs, g, base);
    } else {
      forall rs': seq<Byte> | |rs'| == 64 && rs'[..32] == rs[..32] && Accepts(k, m, pk, rs', g, base)
        ensures rs' == rs
      {
        OnlyOne(k, m, pk, rs, rs', g, base);
      }
    }
  }
}
