// Octets, digests, and the error values every other module shares.
module Bytes {

  newtype byte = x: int | 0 <= x < 256
  type bytes = seq<byte>

  // A 16-octet digest or authenticator.
  type Block = s: bytes | |s| == 16 witness Zeros(16)

  // MD5 and HMAC-MD5 (key, message) are arbitrary functions here, so every
  // theorem that mentions them holds for all digests.
  type Hash = bytes -> Block
  type Mac = (bytes, bytes) -> Block

  datatype Option<+T> = None | Some(value: T)

  // The sentinel errors of errors/errors.go and protocol/errors.go.
  // RuntimePanic stands for a Go slice expression that is out of range.
  datatype Error =
    | SecretEmpty
    | InvalidCode
    | InvalidLength
    | InvalidAttribute
    | AttributeTooLong
    | PasswordTooLong
    | ShortBuffer
    | AuthenticatorMismatch
    | MessageAuthenticatorMissing
    | MessageAuthenticatorMismatch
    | IdentifierMismatch
    | MalformedPacket
    | ConnClosed
    | IdentifierExhausted
    | RuntimePanic

  datatype Result<+T> = Ok(value: T) | Err(error: Error) {
    predicate IsFailure() { Err? }

    function PropagateFailure<U>(): Result<U>
      requires Err?
    {
      Err(error)
    }

    function Extract(): T
      requires Ok?
    {
      value
    }
  }

  function Zeros(n: nat): (z: bytes)
    ensures |z| == n
    ensures forall i :: 0 <= i < n ==> z[i] == 0
  {
    seq(n, _ => 0)
  }

  lemma Assoc<T>(a: seq<T>, b: seq<T>, c: seq<T>)
    ensures (a + b) + c == a + (b + c)
  {
  }

  // ----- big-endian 16-bit fields -----

  function PutUint16(n: nat): (b: bytes)
    requires n < 0x1_0000
    ensures |b| == 2
  {
    [(n / 256) as byte, (n % 256) as byte]
  }

  function Uint16(b: bytes): nat
    requires |b| == 2
  {
    (b[0] as int) * 256 + b[1] as int
  }

  // ----- overwriting part of a buffer -----

  // `s` with `src` written over it from index `at` on, as Go's copy does.
  function Overwrite(s: bytes, at: nat, src: bytes): (r: bytes)
    requires at + |src| <= |s|
    ensures |r| == |s|
  {
    s[..at] + src + s[at + |src|..]
  }

  lemma OverwriteBehind(head: bytes, tail: bytes, at: nat, src: bytes)
    requires at + |src| <= |tail|
    ensures Overwrite(head + tail, |head| + at, src) == head + Overwrite(tail, at, src)
  {
  }

  lemma OverwriteTwice(s: bytes, at: nat, x: bytes, y: bytes)
    requires at + |x| <= |s| && |x| == |y|
    ensures Overwrite(Overwrite(s, at, x), at, y) == Overwrite(s, at, y)
    ensures Overwrite(s, at, x)[at..at + |x|] == x
  {
  }

  lemma OverwriteSame(s: bytes, at: nat, n: nat)
    requires at + n <= |s|
    ensures Overwrite(s, at, s[at..at + n]) == s
  {
  }

  method CopyInto(a: array<byte>, at: nat, src: bytes)
    requires at + |src| <= a.Length
    modifies a
    ensures a[..] == Overwrite(old(a[..]), at, src)
  {
    forall i | 0 <= i < |src| {
      a[at + i] := src[i];
    }
  }

  // The zeroing loop in front of every signature computation.
  method ZeroBlock(a: array<byte>, at: nat)
    requires at + 16 <= a.Length
    modifies a
    ensures a[..] == Overwrite(old(a[..]), at, Zeros(16))
  {
    for i := at to at + 16
      invariant forall k :: 0 <= k < a.Length ==> a[k] == if at <= k < i then 0 else old(a[k])
    {
      a[i] := 0;
    }
  }

  // ----- exclusive or, bit by bit -----

  function XorBits(a: nat, b: nat, bits: nat): nat {
    if bits == 0 then 0
    else 2 * XorBits(a / 2, b / 2, bits - 1) + (if a % 2 == b % 2 then 0 else 1)
  }

  function Pow2(k: nat): (p: nat)
    ensures p > 0
  {
    if k == 0 then 1 else 2 * Pow2(k - 1)
  }

  lemma {:induction false} XorBitsInvolutive(a: nat, b: nat, bits: nat)
    requires a < Pow2(bits)
    ensures XorBits(a, b, bits) < Pow2(bits)
    ensures XorBits(XorBits(a, b, bits), b, bits) == a
  {
    if bits > 0 {
      XorBitsInvolutive(a / 2, b / 2, bits - 1);
      assert XorBits(a, b, bits) / 2 == XorBits(a / 2, b / 2, bits - 1);
    }
  }

  function BitOf(n: nat, k: nat): nat {
    if k == 0 then n % 2 else BitOf(n / 2, k - 1)
  }

  lemma LowBit(n: nat, b: nat)
    requires b <= 1
    ensures (2 * n + b) / 2 == n && (2 * n + b) % 2 == b
  {
  }

  // Every bit of the result is one exactly when the two bits differ.
  lemma {:induction false} XorBitsAt(a: nat, b: nat, bits: nat, k: nat)
    requires k < bits
    ensures BitOf(XorBits(a, b, bits), k) == if BitOf(a, k) != BitOf(b, k) then 1 else 0
    decreases k
  {
    var rest := XorBits(a / 2, b / 2, bits - 1);
    LowBit(rest, if a % 2 == b % 2 then 0 else 1);
    if k > 0 {
      XorBitsAt(a / 2, b / 2, bits - 1, k - 1);
    }
  }

  function Xor(a: byte, b: byte): byte {
    XorBitsInvolutive(a as int, b as int, 8);
    XorBits(a as int, b as int, 8) as byte
  }

  lemma XorInvolutive(a: byte, b: byte)
    ensures Xor(Xor(a, b), b) == a
  {
    XorBitsInvolutive(a as int, b as int, 8);
  }

  function XorBlock(a: Block, b: Block): (c: Block)
  {
    seq(16, i requires 0 <= i < 16 => Xor(a[i], b[i]))
  }

  lemma XorBlockInvolutive(a: Block, b: Block)
    ensures XorBlock(XorBlock(a, b), b) == a
  {
    forall i | 0 <= i < 16
      ensures XorBlock(XorBlock(a, b), b)[i] == a[i]
    {
      XorInvolutive(a[i], b[i]);
    }
  }

  // The inner loop of every block cipher: one block of keystream applied.
  method XorBlockInto(out: array<byte>, at: nat, src: Block, key: Block)
    requires at + 16 <= out.Length
    modifies out
    ensures out[..] == Overwrite(old(out[..]), at, XorBlock(src, key))
  {
    for j := 0 to 16
      invariant forall k :: 0 <= k < out.Length && !(at <= k < at + j) ==> out[k] == old(out[k])
      invariant forall k :: 0 <= k < j ==> out[at + k] == Xor(src[k], key[k])
    {
      out[at + j] := Xor(src[j], key[j]);
    }
    var want := Overwrite(old(out[..]), at, XorBlock(src, key));
    forall k | 0 <= k < out.Length
      ensures out[k] == want[k]
    {
      if at <= k < at + 16 {
        assert out[at + (k - at)] == Xor(src[k - at], key[k - at]);
      }
    }
  }
}
