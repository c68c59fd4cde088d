/** RSA PKCS #1 v1.5 signature verification (sdk/tools/zz9k-crypto-soft.c) against
    sections 8.2.2 and 9.2 of RFC 8017. */
module Rsa {
  import opened Words
  import opened Bignum
  import opened BignumMod

  /** The number a big-endian byte string stands for (OS2IP). */
  function BeNat(s: seq<u8>): (r: nat)
  {
    BeTo(s, |s|)
  }

  function BeTo(s: seq<u8>, n: nat): (r: nat)
    requires n <= |s|
  {
    if n == 0 then 0 else 0x100 * BeTo(s, n - 1) + s[n - 1]
  }

  lemma {:induction false} BePrefix(s: seq<u8>, t: seq<u8>, n: nat)
    requires n <= |s| && n <= |t| && forall k :: 0 <= k < n ==> s[k] == t[k]
    ensures BeTo(s, n) == BeTo(t, n)
  {
    if n > 0 { BePrefix(s, t, n - 1); }
  }

  /** Byte strings of one length that stand for the same number are the same string. */
  lemma {:induction false} BeInjective(s: seq<u8>, t: seq<u8>)
    requires |s| == |t| && BeNat(s) == BeNat(t)
    ensures s == t
  {
    if s != [] {
      var k := |s| - 1;
      BePrefix(s, s[..k], k);
      BePrefix(t, t[..k], k);
      BeInjective(s[..k], t[..k]);
      assert s == s[..k] + [s[k]] && t == t[..k] + [t[k]];
    }
  }

  /** The limb that the four bytes from `4 * i` on make. */
  function LimbAt(be: seq<u8>, i: nat): (w: u32)
    requires 4 * i + 4 <= |be|
  {
    Load32(be[4 * i + 3], be[4 * i + 2], be[4 * i + 1], be[4 * i])
  }

  /** Limbs taken from the far end of a byte string give the same number. */
  lemma {:induction false} LimbsAreBytes(s: seq<u32>, be: seq<u8>, n: nat)
    requires |s| == n && 4 * n <= |be|
    requires forall i :: 0 <= i < n ==> s[i] == LimbAt(be, n - 1 - i)
    ensures Nat(s) == BeTo(be, 4 * n)
  {
    if n > 0 {
      var low := s[0];
      LimbsAreBytes(s[1..], be, n - 1);
      assert s == [low] + s[1..];
      NatCons(low, s[1..]);
      LastLimb(be, 4 * n - 4, n - 1);
    }
  }

  lemma LastLimb(be: seq<u8>, k: nat, i: nat)
    requires k == 4 * i && k + 4 <= |be|
    ensures BeTo(be, k + 4) == 0x1_0000_0000 * BeTo(be, k) + LimbAt(be, i)
  {
    assert BeTo(be, k + 1) == 0x100 * BeTo(be, k) + be[k];
    assert BeTo(be, k + 2) == 0x100 * BeTo(be, k + 1) + be[k + 1];
    assert BeTo(be, k + 3) == 0x100 * BeTo(be, k + 2) + be[k + 2];
    assert BeTo(be, k + 4) == 0x100 * BeTo(be, k + 3) + be[k + 3];
  }

  method FromBe(r: array<u32>, be: seq<u8>, nbytes: nat)
    requires nbytes % 4 == 0 && nbytes <= |be| && nbytes / 4 <= r.Length
    modifies r
    ensures Nat(r[..nbytes / 4]) == BeNat(be[..nbytes])
  {
    var n := nbytes / 4;
    for i := 0 to n
      invariant forall k :: 0 <= k < i ==> r[k] == LimbAt(be, n - 1 - k)
    {
      var p := 4 * (n - 1 - i);
      r[i] := Load32(be[p + 3], be[p + 2], be[p + 1], be[p]);
    }
    LimbsAreBytes(r[..n], be, n);
    BePrefix(be, be[..nbytes], nbytes);
  }

  method ToBe(be: array<u8>, a: array<u32>, n: nat)
    requires n <= a.Length && 4 * n <= be.Length
    modifies be
    ensures BeNat(be[..4 * n]) == Nat(a[..n])
  {
    for i := 0 to n
      invariant forall k :: 0 <= k < i ==>
        be[4 * k] == Byte(a[n - 1 - k], 3) && be[4 * k + 1] == Byte(a[n - 1 - k], 2) &&
        be[4 * k + 2] == Byte(a[n - 1 - k], 1) && be[4 * k + 3] == Byte(a[n - 1 - k], 0)
    {
      var v := a[n - 1 - i];
      be[i * 4] := Byte(v, 3);
      be[i * 4 + 1] := Byte(v, 2);
      be[i * 4 + 2] := Byte(v, 1);
      be[i * 4 + 3] := Byte(v, 0);
    }
    forall i | 0 <= i < n ensures a[..n][i] == LimbAt(be[..], n - 1 - i) {
      BytesOfWord(a[i]);
      assert be[..][4 * (n - 1 - i)] == Byte(a[i], 3);
    }
    LimbsAreBytes(a[..n], be[..], n);
    BePrefix(be[..], be[..4 * n], 4 * n);
  }

  const DIGEST_INFO: seq<u8> := [
    0x30, 0x31, 0x30, 0x0d, 0x06, 0x09, 0x60, 0x86, 0x48, 0x01,
    0x65, 0x03, 0x04, 0x02, 0x01, 0x05, 0x00, 0x04, 0x20]

  /** EMSA-PKCS1-v1_5 (RFC 8017 section 9.2) of a SHA-256 hash in `len` bytes. */
  function Emsa(hash: seq<u8>, len: nat): (em: seq<u8>)
    requires |hash| == 32 && len >= 62
    ensures |em| == len
  {
    [0x00, 0x01] + seq(len - 54, _ => 0xFF) + [0x00] + DIGEST_INFO + hash
  }

  /** Whether `s` is the encoding, part by part. */
  lemma EmsaParts(s: seq<u8>, hash: seq<u8>)
    requires |hash| == 32 && |s| >= 62
    ensures s == Emsa(hash, |s|) <==>
      && s[0] == 0x00 && s[1] == 0x01
      && (forall k :: 2 <= k < |s| - 52 ==> s[k] == 0xFF)
      && s[|s| - 52] == 0x00
      && s[|s| - 51..|s| - 32] == DIGEST_INFO && s[|s| - 32..] == hash
  {
    var n := |s|;
    var e := Emsa(hash, n);
    assert e[0] == 0x00 && e[1] == 0x01 && e[n - 52] == 0x00;
    assert forall k :: 2 <= k < n - 52 ==> e[k] == 0xFF;
    assert e[n - 51..n - 32] == DIGEST_INFO && e[n - 32..] == hash;
    assert s == s[..2] + s[2..n - 52] + [s[n - 52]] + s[n - 51..n - 32] + s[n - 32..];
    if s[0] == 0x00 && s[1] == 0x01 && (forall k :: 2 <= k < n - 52 ==> s[k] == 0xFF) {
      assert s[..2] == [0x00, 0x01];
      assert s[2..n - 52] == seq(n - 54, _ => 0xFF);
    }
  }

  method SameBytes(a: seq<u8>, pos: nat, b: seq<u8>) returns (ok: bool)
    requires pos + |b| <= |a|
    ensures ok <==> a[pos..pos + |b|] == b
  {
    for i := 0 to |b|
      invariant forall k :: 0 <= k < i ==> a[pos + k] == b[k]
    {
      if a[pos + i] != b[i] {
        assert a[pos..pos + |b|][i] == a[pos + i];
        return false;
      }
    }
    ok := true;
  }

  /** The scanning parser accepts that one string and nothing else. */
  method ParseEncoding(em: seq<u8>, hash: seq<u8>) returns (ok: bool)
    requires 4 <= |em| && |hash| == 32
    ensures ok <==> |em| >= 62 && em == Emsa(hash, |em|)
  {
    if |em| >= 62 { EmsaParts(em, hash); }
    if em[0] != 0x00 || em[1] != 0x01 { return false; }
    var pos := 2;
    while pos < |em| && em[pos] == 0xFF
      invariant 2 <= pos <= |em|
      invariant forall k :: 2 <= k < pos ==> em[k] == 0xFF
    {
      pos := pos + 1;
    }
    var ps_end := pos;
    if ps_end - 2 < 8 { return false; }
    if ps_end >= |em| || em[ps_end] != 0x00 { return false; }
    pos := ps_end + 1;
    if |em| - pos != 19 + 32 { return false; }
    var info := SameBytes(em, pos, DIGEST_INFO);
    if !info { return false; }
    ok := SameBytes(em, pos + 19, hash);
  }

  /** Section 8.2.2: the signature representative is in range and its public power is the
      number that the one encoding of the hash stands for. */
  ghost predicate ValidSignature(signature: seq<u8>, modulus: seq<u8>, e: u32, hash: seq<u8>)
    requires |hash| == 32 && |signature| == |modulus|
  {
    && |modulus| >= 62
    && BeNat(signature) < BeNat(modulus)
    && e > 0
    && Pow(BeNat(signature), e) % BeNat(modulus) == BeNat(Emsa(hash, |modulus|))
  }

  /** `m = sig^e mod n` as `emlen` bytes, for a signature below the modulus. */
  method PublicPower(signature: seq<u8>, n: seq<u8>, limbs: nat, e: u32)
    returns (inRange: bool, em: seq<u8>)
    requires 0 < limbs <= MAX_LIMBS && |signature| == |n| == 4 * limbs
    ensures inRange <==> BeNat(signature) < BeNat(n) && e > 0
    ensures inRange ==> |em| == 4 * limbs && BeNat(em) == Pow(BeNat(signature), e) % BeNat(n)
  {
    var sig := new u32[MAX_LIMBS];
    var mod := new u32[MAX_LIMBS];
    em := [];
    FromBe(sig, signature, 4 * limbs);
    ghost var sigs := sig[..limbs];
    FromBe(mod, n, 4 * limbs);
    ghost var mods := mod[..limbs];
    assert sig[..limbs] == sigs && signature[..4 * limbs] == signature && n[..4 * limbs] == n;
    var c := Cmp(sig, mod, limbs);
    if c >= 0 { return false, em; }
    var ev := new u32[1];
    ev[0] := e;
    assert ev[..1] == [] + [e];
    NatAppend([], e);
    var ebits := BitLen(ev, 1);
    if ebits == 0 { return false, em; }
    ExponentBits(e, ebits);
    assert sig[..limbs] == sigs && mod[..limbs] == mods;
    em := PowerBytes(sig, ev, ebits, mod, limbs);
    inRange := true;
  }

  method PowerBytes(sig: array<u32>, ev: array<u32>, ebits: nat, mod: array<u32>, limbs: nat) returns (em: seq<u8>)
    requires 0 < limbs <= MAX_LIMBS && limbs <= sig.Length && limbs <= mod.Length && ev.Length == 1
    requires 0 < ebits <= 32 && Nat(ev[..1]) < Pow2(ebits) && Nat(mod[..limbs]) > 0
    ensures |em| == 4 * limbs
    ensures BeNat(em) == Pow(Nat(sig[..limbs]), Nat(ev[..1])) % Nat(mod[..limbs])
  {
    var m := new u32[MAX_LIMBS];
    ghost var g, e, v := Nat(sig[..limbs]), Nat(ev[..1]), Nat(mod[..limbs]);
    ModExp(m, sig, ev, ebits, mod, limbs);
    ModExpIsPower(Nat(m[..limbs]), g, e, ebits, v);
    SmallMod(e, Pow2(ebits));
    var bytes := new u8[4 * limbs];
    ToBe(bytes, m, limbs);
    em := bytes[..4 * limbs];
  }

  /** `zz9k_soft_rsa_verify_pkcs1_sha256`. */
  method Verify(signature: seq<u8>, hash: seq<u8>, n: seq<u8>, n_bits: u32, e: u32) returns (ok: bool)
    requires |hash| == 32 && |n| >= n_bits / 8
    ensures ok <==>
      && n_bits % 32 == 0 && 0 < n_bits <= 4096 && |signature| == n_bits / 8
      && ValidSignature(signature, n[..n_bits / 8], e, hash)
  {
    var limbs := n_bits / 32;
    if n_bits == 0 || n_bits % 32 != 0 || limbs > MAX_LIMBS { return false; }
    if |signature| != limbs * 4 { return false; }
    var inRange, em := PublicPower(signature, n[..limbs * 4], limbs, e);
    if !inRange { return false; }
    ok := ParseEncoding(em, hash);
    if |em| >= 62 && BeNat(em) == BeNat(Emsa(hash, |em|)) {
      BeInjective(em, Emsa(hash, |em|));
    }
  }

  lemma ExponentBits(e: u32, ebits: nat)
    requires 0 < ebits && Pow2(ebits - 1) <= e
    ensures ebits <= 32
  {
    if ebits > 32 {
      Pow2Mono(32, ebits - 1);
      Pow2Values();
    }
  }
}
