// The keyed feedback chain shared by User-Password (section 5.2 of RFC 2865),
// Tunnel-Password (section 3.5 of RFC 2868) and the MPPE keys (RFC 2548):
//
//   c(1) = p(1) xor H(secret + seed),   c(i) = p(i) xor H(secret + c(i-1))
module Chain {
  import opened Bytes

  predicate Aligned(s: bytes) {
    |s| % 16 == 0
  }

  function Hide(h: Hash, secret: bytes, seed: bytes, plain: bytes): (c: bytes)
    requires Aligned(plain)
    ensures |c| == |plain|
    decreases |plain|
  {
    if plain == [] then []
    else
      var first := XorBlock(plain[..16], h(secret + seed));
      first + Hide(h, secret, first, plain[16..])
  }

  function Unhide(h: Hash, secret: bytes, seed: bytes, cipher: bytes): (p: bytes)
    requires Aligned(cipher)
    ensures |p| == |cipher|
    decreases |cipher|
  {
    if cipher == [] then []
    else XorBlock(cipher[..16], h(secret + seed)) + Unhide(h, secret, cipher[..16], cipher[16..])
  }

  // What the chain feeds back after the ciphertext `c`.
  function Feedback(seed: bytes, c: bytes): bytes
    requires Aligned(c)
  {
    if c == [] then seed else c[|c| - 16..]
  }

  lemma {:induction false} UnhideHide(h: Hash, secret: bytes, seed: bytes, plain: bytes)
    requires Aligned(plain)
    ensures Unhide(h, secret, seed, Hide(h, secret, seed, plain)) == plain
    decreases |plain|
  {
    if plain != [] {
      var k := h(secret + seed);
      var first := XorBlock(plain[..16], k);
      var c := Hide(h, secret, seed, plain);
      assert c[..16] == first && c[16..] == Hide(h, secret, first, plain[16..]);
      XorBlockInvolutive(plain[..16], k);
      UnhideHide(h, secret, first, plain[16..]);
    }
  }

  lemma {:induction false} HideUnhide(h: Hash, secret: bytes, seed: bytes, cipher: bytes)
    requires Aligned(cipher)
    ensures Hide(h, secret, seed, Unhide(h, secret, seed, cipher)) == cipher
    decreases |cipher|
  {
    if cipher != [] {
      var k := h(secret + seed);
      var p := Unhide(h, secret, seed, cipher);
      assert p[..16] == XorBlock(cipher[..16], k) && p[16..] == Unhide(h, secret, cipher[..16], cipher[16..]);
      XorBlockInvolutive(cipher[..16], k);
      HideUnhide(h, secret, cipher[..16], cipher[16..]);
    }
  }

  lemma FeedbackBehind(seed: bytes, c: bytes)
    requires Aligned(c) && c != []
    ensures Feedback(seed, c) == Feedback(c[..16], c[16..])
  {
    if c[16..] == [] {
      assert c == c[..16];
    }
  }

  // One more block: the step the encryption loop takes.
  lemma {:induction false} HideStep(h: Hash, secret: bytes, seed: bytes, plain: bytes, b: Block)
    requires Aligned(plain)
    ensures Hide(h, secret, seed, plain + b)
         == Hide(h, secret, seed, plain) + XorBlock(b, h(secret + Feedback(seed, Hide(h, secret, seed, plain))))
    decreases |plain|
  {
    if plain == [] {
      assert plain + b == b && b[..16] == b && b[16..] == [];
    } else {
      var first := XorBlock(plain[..16], h(secret + seed));
      assert (plain + b)[..16] == plain[..16] && (plain + b)[16..] == plain[16..] + b;
      HideStep(h, secret, first, plain[16..], b);
      var rest := Hide(h, secret, first, plain[16..]);
      assert Feedback(first, rest) == Feedback(seed, first + rest);
    }
  }

  // One more block: the step the decryption loop takes.
  lemma {:induction false} UnhideStep(h: Hash, secret: bytes, seed: bytes, cipher: bytes, b: Block)
    requires Aligned(cipher)
    ensures Unhide(h, secret, seed, cipher + b)
         == Unhide(h, secret, seed, cipher) + XorBlock(b, h(secret + Feedback(seed, cipher)))
    decreases |cipher|
  {
    if cipher == [] {
      assert cipher + b == b && b[..16] == b && b[16..] == [];
    } else {
      assert (cipher + b)[..16] == cipher[..16] && (cipher + b)[16..] == cipher[16..] + b;
      UnhideStep(h, secret, cipher[..16], cipher[16..], b);
      FeedbackBehind(seed, cipher);
      Assoc(XorBlock(cipher[..16], h(secret + seed)), Unhide(h, secret, cipher[..16], cipher[16..]),
            XorBlock(b, h(secret + Feedback(seed, cipher))));
    }
  }

  lemma BlockBounds(n: nat, length: nat)
    requires length % 16 == 0 && n < length / 16
    ensures 16 * n + 16 <= length && (16 * n) % 16 == 0
  {
  }

  // What the loops hash for block `i` of a buffer: the block in front of it.
  function Previous(seed: bytes, c: bytes, i: nat): bytes
    requires i <= |c| && i % 16 == 0
  {
    if i == 0 then seed else c[i - 16..i]
  }

  lemma PreviousIsFeedback(seed: bytes, c: bytes, i: nat)
    requires i <= |c| && i % 16 == 0
    ensures Previous(seed, c, i) == Feedback(seed, c[..i])
  {
  }

  // The encryption loop, one iteration on its buffer `out`.
  lemma HideIteration(h: Hash, secret: bytes, seed: bytes, plain: bytes, out: bytes, i: nat)
    requires |out| == |plain| && i + 16 <= |plain| && i % 16 == 0
    requires out[..i] == Hide(h, secret, seed, plain[..i])
    ensures Overwrite(out, i, XorBlock(plain[i..i + 16], h(secret + Previous(seed, out, i))))[..i + 16]
         == Hide(h, secret, seed, plain[..i + 16])
  {
    HideStep(h, secret, seed, plain[..i], plain[i..i + 16]);
    PreviousIsFeedback(seed, out, i);
    assert plain[..i + 16] == plain[..i] + plain[i..i + 16];
  }

  // The decryption loop, one iteration on its buffer `out`.
  lemma UnhideIteration(h: Hash, secret: bytes, seed: bytes, cipher: bytes, out: bytes, i: nat)
    requires |out| == |cipher| && i + 16 <= |cipher| && i % 16 == 0
    requires out[..i] == Unhide(h, secret, seed, cipher[..i])
    ensures Overwrite(out, i, XorBlock(cipher[i..i + 16], h(secret + Previous(seed, cipher, i))))[..i + 16]
         == Unhide(h, secret, seed, cipher[..i + 16])
  {
    UnhideStep(h, secret, seed, cipher[..i], cipher[i..i + 16]);
    PreviousIsFeedback(seed, cipher, i);
    assert cipher[..i + 16] == cipher[..i] + cipher[i..i + 16];
  }

  // The body of every encryption loop: block `i` of the buffer, under its key.
  method HideBlockInto(h: Hash, secret: bytes, ghost seed: bytes, plain: bytes, out: array<byte>, i: nat, key: Block)
    requires out.Length == |plain| && i + 16 <= |plain| && i % 16 == 0
    requires out[..i] == Hide(h, secret, seed, plain[..i])
    requires key == h(secret + Previous(seed, out[..], i))
    modifies out
    ensures out[..i + 16] == Hide(h, secret, seed, plain[..i + 16])
  {
    HideIteration(h, secret, seed, plain, out[..], i);
    XorBlockInto(out, i, plain[i..i + 16], key);
    assert out[..][..i + 16] == out[..i + 16];
  }

  // The body of every decryption loop.
  method UnhideBlockInto(h: Hash, secret: bytes, ghost seed: bytes, cipher: bytes, out: array<byte>, i: nat, key: Block)
    requires out.Length == |cipher| && i + 16 <= |cipher| && i % 16 == 0
    requires out[..i] == Unhide(h, secret, seed, cipher[..i])
    requires key == h(secret + Previous(seed, cipher, i))
    modifies out
    ensures out[..i + 16] == Unhide(h, secret, seed, cipher[..i + 16])
  {
    UnhideIteration(h, secret, seed, cipher, out[..], i);
    XorBlockInto(out, i, cipher[i..i + 16], key);
    assert out[..][..i + 16] == out[..i + 16];
  }

  // The block equation of the RFCs, for every block of the ciphertext.
  lemma {:induction false} BlockEquation(h: Hash, secret: bytes, seed: bytes, plain: bytes, i: nat)
    requires Aligned(plain) && 16 * i < |plain|
    ensures (var c := Hide(h, secret, seed, plain);
             c[16 * i..16 * i + 16]
             == XorBlock(plain[16 * i..16 * i + 16],
                         h(secret + (if i == 0 then seed else c[16 * i - 16..16 * i]))))
    decreases i
  {
    var first := XorBlock(plain[..16], h(secret + seed));
    var rest := Hide(h, secret, first, plain[16..]);
    var c: bytes := first + rest;
    if i == 0 {
      assert c[0..16] == first && plain[0..16] == plain[..16];
    } else {
      BlockEquation(h, secret, first, plain[16..], i - 1);
      Shift(first, rest, i - 1);
      Shift(plain[..16], plain[16..], i - 1);
      assert plain == plain[..16] + plain[16..];
      if i == 1 {
        assert c[0..16] == first;
      } else {
        Shift(first, rest, i - 2);
      }
    }
  }

  lemma Shift(first: bytes, rest: bytes, i: nat)
    requires |first| == 16 && 16 * i + 16 <= |rest|
    ensures (first + rest)[16 * i + 16..16 * i + 32] == rest[16 * i..16 * i + 16]
  {
  }
}
