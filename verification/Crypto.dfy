// crypto/crypto.go: the authenticator digests and User-Password hiding.
module Crypto {
  import opened Bytes
  import opened Chain

  const USER_PASSWORD_MAX_LENGTH := 128

  // ----- authenticators -----

  function ResponseAuthenticator(md5: Hash, code: byte, id: byte, length: nat, requestAuth: Block,
                                 attributes: bytes, secret: bytes): Block
    requires length < 0x1_0000
  {
    md5([code, id] + PutUint16(length) + requestAuth + attributes + secret)
  }

  function AccountingRequestAuthenticator(md5: Hash, code: byte, id: byte, length: nat,
                                          attributes: bytes, secret: bytes): Block
    requires length < 0x1_0000
  {
    md5([code, id] + PutUint16(length) + Zeros(16) + attributes + secret)
  }

  // ----- User-Password -----

  function PaddedLength(n: nat): (m: nat)
    ensures n <= m && m % 16 == 0 && 16 <= m
    ensures m < n + 16 || m == 16
    ensures n <= USER_PASSWORD_MAX_LENGTH ==> m <= USER_PASSWORD_MAX_LENGTH
  {
    if n == 0 then 16 else (n + 15) / 16 * 16
  }

  function Padded(password: bytes): (p: bytes)
    ensures |p| == PaddedLength(|password|)
  {
    password + Zeros(PaddedLength(|password|) - |password|)
  }

  function EncryptedPassword(md5: Hash, password: bytes, requestAuth: Block, secret: bytes): bytes {
    Hide(md5, secret, requestAuth, Padded(password))
  }

  function EncryptUserPassword(md5: Hash, password: bytes, requestAuth: Block, secret: bytes): Result<bytes> {
    if secret == [] then Err(SecretEmpty)
    else if |password| > USER_PASSWORD_MAX_LENGTH then Err(PasswordTooLong)
    else Ok(EncryptedPassword(md5, password, requestAuth, secret))
  }

  // `s` without its trailing NUL octets.
  function TrimNul(s: bytes): bytes {
    if s != [] && s[|s| - 1] == 0 then TrimNul(s[..|s| - 1]) else s
  }

  function DecryptUserPassword(md5: Hash, cipher: bytes, requestAuth: Block, secret: bytes): Result<bytes> {
    if secret == [] then Err(SecretEmpty)
    else if cipher == [] || |cipher| % 16 != 0 || |cipher| > USER_PASSWORD_MAX_LENGTH then Err(InvalidAttribute)
    else Ok(TrimNul(Unhide(md5, secret, requestAuth, cipher)))
  }

  // ----- the loops -----

  method EncryptBlocks(md5: Hash, password: bytes, requestAuth: Block, secret: bytes) returns (r: bytes)
    ensures r == EncryptedPassword(md5, password, requestAuth, secret)
  {
    var padded := Padded(password);
    var out := new byte[|padded|](_ => 0);
    var prev: bytes := requestAuth;
    for n := 0 to |padded| / 16
      invariant 16 * n <= out.Length && (16 * n) % 16 == 0
      invariant out[..16 * n] == Hide(md5, secret, requestAuth, padded[..16 * n])
      invariant prev == Previous(requestAuth, out[..], 16 * n)
    {
      var i := 16 * n;
      BlockBounds(n, |padded|);
      var b := md5(secret + prev);
      HideBlockInto(md5, secret, requestAuth, padded, out, i, b);
      prev := out[i..i + 16];
    }
    assert padded[..|padded|] == padded;
    return out[..];
  }

  method EncryptPassword(md5: Hash, password: bytes, requestAuth: Block, secret: bytes) returns (r: Result<bytes>)
    ensures r == EncryptUserPassword(md5, password, requestAuth, secret)
  {
    if secret == [] {
      return Err(SecretEmpty);
    }
    if |password| > USER_PASSWORD_MAX_LENGTH {
      return Err(PasswordTooLong);
    }
    var c := EncryptBlocks(md5, password, requestAuth, secret);
    return Ok(c);
  }

  method DecryptBlocks(md5: Hash, cipher: bytes, requestAuth: Block, secret: bytes) returns (r: bytes)
    requires Aligned(cipher)
    ensures r == Unhide(md5, secret, requestAuth, cipher)
  {
    var out := new byte[|cipher|](_ => 0);
    var prev: bytes := requestAuth;
    for n := 0 to |cipher| / 16
      invariant 16 * n <= out.Length && (16 * n) % 16 == 0
      invariant out[..16 * n] == Unhide(md5, secret, requestAuth, cipher[..16 * n])
      invariant prev == Previous(requestAuth, cipher, 16 * n)
    {
      var i := 16 * n;
      BlockBounds(n, |cipher|);
      var b := md5(secret + prev);
      UnhideBlockInto(md5, secret, requestAuth, cipher, out, i, b);
      prev := cipher[i..i + 16];
    }
    assert cipher[..|cipher|] == cipher;
    return out[..];
  }

  method DecryptPassword(md5: Hash, cipher: bytes, requestAuth: Block, secret: bytes) returns (r: Result<bytes>)
    ensures r == DecryptUserPassword(md5, cipher, requestAuth, secret)
  {
    if secret == [] {
      return Err(SecretEmpty);
    }
    if |cipher| == 0 || |cipher| % 16 != 0 || |cipher| > USER_PASSWORD_MAX_LENGTH {
      return Err(InvalidAttribute);
    }
    var plaintext := DecryptBlocks(md5, cipher, requestAuth, secret);
    ghost var all := plaintext;
    while |plaintext| > 0 && plaintext[|plaintext| - 1] == 0
      invariant TrimNul(plaintext) == TrimNul(all)
    {
      plaintext := plaintext[..|plaintext| - 1];
    }
    return Ok(plaintext);
  }

  // ----- what the password survives -----

  // TrimNul removes exactly the trailing NULs.
  lemma {:induction false} TrimNulMeaning(s: bytes)
    ensures (var r := TrimNul(s);
             r <= s && (forall i :: |r| <= i < |s| ==> s[i] == 0) && (r == [] || r[|r| - 1] != 0))
  {
    if s != [] && s[|s| - 1] == 0 {
      TrimNulMeaning(s[..|s| - 1]);
    }
  }

  lemma {:induction false} TrimNulPadding(s: bytes, n: nat)
    ensures TrimNul(s + Zeros(n)) == TrimNul(s)
  {
    if n == 0 {
      assert s + Zeros(0) == s;
    } else {
      assert (s + Zeros(n))[..|s| + n - 1] == s + Zeros(n - 1);
      TrimNulPadding(s, n - 1);
    }
  }

  // Section 5.2 of RFC 2865: the password filled up with NULs to whole blocks, each hidden
  // under the secret and the block before it, the first under the Request Authenticator.
  lemma PasswordEquation(md5: Hash, password: bytes, requestAuth: Block, secret: bytes, i: nat)
    requires secret != [] && |password| <= 128
    ensures EncryptUserPassword(md5, password, requestAuth, secret).Ok?
    ensures (var c := EncryptUserPassword(md5, password, requestAuth, secret).value;
             |password| <= |c| < |password| + 16 + (if password == [] then 1 else 0) && |c| % 16 == 0 && c != []
             && (16 * i < |c| ==>
                   c[16 * i..16 * i + 16]
                   == XorBlock((password + Zeros(|c| - |password|))[16 * i..16 * i + 16],
                               md5(secret + if i == 0 then requestAuth else c[16 * i - 16..16 * i]))))
  {
    if 16 * i < |Padded(password)| {
      BlockEquation(md5, secret, requestAuth, Padded(password), i);
    }
  }

  // A password of at most 128 octets comes back without its trailing NULs.
  lemma PasswordRoundTrip(md5: Hash, password: bytes, requestAuth: Block, secret: bytes)
    requires secret != [] && |password| <= 128
    ensures EncryptUserPassword(md5, password, requestAuth, secret).Ok?
    ensures (var c := EncryptUserPassword(md5, password, requestAuth, secret).value;
             |c| % 16 == 0 && 16 <= |c| <= 128
             && DecryptUserPassword(md5, c, requestAuth, secret) == Ok(TrimNul(password)))
  {
    UnhideHide(md5, secret, requestAuth, Padded(password));
    TrimNulPadding(password, PaddedLength(|password|) - |password|);
  }

  // It comes back unchanged exactly when it does not end in NUL.
  lemma PasswordUnchangedIff(md5: Hash, password: bytes, requestAuth: Block, secret: bytes)
    requires secret != [] && |password| <= 128
    ensures EncryptUserPassword(md5, password, requestAuth, secret).Ok?
    ensures DecryptUserPassword(md5, EncryptUserPassword(md5, password, requestAuth, secret).value, requestAuth, secret)
            == Ok(password)
       <==> (password == [] || password[|password| - 1] != 0)
  {
    PasswordRoundTrip(md5, password, requestAuth, secret);
    TrimNulMeaning(password);
  }
}
