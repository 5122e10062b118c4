// crypto/mschapv2.go: the two encoders in front of the password hash and the cipher.
module MSCHAP {
  import opened Bytes

  // ----- utf16LE -----

  // Ranging over a Go string yields Unicode scalar values only.
  type Rune = c: int | 0 <= c < 0xD800 || 0xE000 <= c < 0x11_0000

  // One 16-bit unit, low octet first.
  function Unit(u: nat): (b: bytes)
    requires u < 0x1_0000
    ensures |b| == 2
  {
    [(u % 256) as byte, (u / 256) as byte]
  }

  function EncodeRune(c: Rune): (b: bytes)
    ensures |b| == if c <= 0xFFFF then 2 else 4
  {
    if c <= 0xFFFF then Unit(c)
    else Unit(0xD800 + (c - 0x1_0000) / 0x400) + Unit(0xDC00 + (c - 0x1_0000) % 0x400)
  }

  function Encode(rs: seq<Rune>): bytes {
    if rs == [] then [] else EncodeRune(rs[0]) + Encode(rs[1..])
  }

  method Utf16LE(rs: seq<Rune>) returns (buf: bytes)
    ensures buf == Encode(rs)
  {
    buf := [];
    assert rs[..0] == [];
    for i := 0 to |rs|
      invariant buf == Encode(rs[..i])
    {
      EncodeSnoc(rs[..i], rs[i]);
      assert rs[..i + 1] == rs[..i] + [rs[i]];
      if rs[i] <= 0xFFFF {
        buf := buf + Unit(rs[i]);
      } else {
        var r: int := rs[i];
        var c := r - 0x1_0000;
        var hi := 0xD800 + c / 0x400;
        var lo := 0xDC00 + c % 0x400;
        Assoc(buf, Unit(hi), Unit(lo));
        buf := buf + Unit(hi);
        buf := buf + Unit(lo);
      }
    }
    assert rs[..|rs|] == rs;
  }

  lemma {:induction false} EncodeSnoc(rs: seq<Rune>, c: Rune)
    ensures Encode(rs + [c]) == Encode(rs) + EncodeRune(c)
  {
    if rs == [] {
      assert (rs + [c])[1..] == [];
    } else {
      assert (rs + [c])[1..] == rs[1..] + [c];
      EncodeSnoc(rs[1..], c);
      Assoc(EncodeRune(rs[0]), Encode(rs[1..]), EncodeRune(c));
    }
  }

  // The decoder of section 2.2 of RFC 2781, on one character: its code point and the
  // number of octets it took.
  function DecodeRune(b: bytes): Option<(Rune, nat)> {
    if |b| < 2 then None
    else
      var w1 := b[0] as int + 256 * b[1] as int;
      if w1 < 0xD800 || w1 > 0xDFFF then Some((w1, 2))
      else if w1 > 0xDBFF || |b| < 4 then None
      else
        var w2 := b[2] as int + 256 * b[3] as int;
        if w2 < 0xDC00 || w2 > 0xDFFF then None
        else Some(((w1 - 0xD800) * 0x400 + (w2 - 0xDC00) + 0x1_0000, 4))
  }

  function Decode(b: bytes): Option<seq<Rune>>
    decreases |b|
  {
    if b == [] then Some([])
    else
      match DecodeRune(b)
      case None => None
      case Some((c, n)) =>
        match Decode(b[n..])
        case None => None
        case Some(more) => Some([c] + more)
  }

  lemma DecodeEncodeRune(c: Rune, rest: bytes)
    ensures DecodeRune(EncodeRune(c) + rest) == Some((c, |EncodeRune(c)|))
  {
    if c > 0xFFFF {
      var v := c - 0x1_0000;
      assert v / 0x400 < 0x400 && v == v / 0x400 * 0x400 + v % 0x400;
    }
  }

  lemma EncodeDecodeRune(b: bytes)
    requires DecodeRune(b).Some?
    ensures (var (c, n) := DecodeRune(b).value; n <= |b| && b == EncodeRune(c) + b[n..])
  {
    var (c, n) := DecodeRune(b).value;
    if n == 4 {
      var x, y := b[0] as int + 256 * b[1] as int - 0xD800, b[2] as int + 256 * b[3] as int - 0xDC00;
      assert (x * 0x400 + y) / 0x400 == x && (x * 0x400 + y) % 0x400 == y;
    }
  }

  // The units of a character, each with its low octet first: itself, or a high and a low
  // surrogate.
  lemma Utf16Units(c: Rune)
    ensures (var b := EncodeRune(c);
             if c < 0x1_0000 then |b| == 2 && b[0] as int + 256 * b[1] as int == c
             else
               |b| == 4
               && (var hi, lo := b[0] as int + 256 * b[1] as int, b[2] as int + 256 * b[3] as int;
                   0xD800 <= hi < 0xDC00 && 0xDC00 <= lo < 0xE000
                   && 0x1_0000 + 0x400 * (hi - 0xD800) + (lo - 0xDC00) == c))
  {
    if c > 0xFFFF {
      var v := c - 0x1_0000;
      assert v / 0x400 < 0x400 && v == v / 0x400 * 0x400 + v % 0x400;
    }
  }

  // utf16LE and decoding are inverse in both directions: each octet string is the
  // encoding of at most one text, so two passwords never share one.
  lemma {:induction false} Utf16Iff(b: bytes, rs: seq<Rune>)
    ensures Decode(b) == Some(rs) <==> Encode(rs) == b
    decreases |rs| + |b|
  {
    if Encode(rs) == b && rs != [] {
      var rest := Encode(rs[1..]);
      DecodeEncodeRune(rs[0], rest);
      assert b[|EncodeRune(rs[0])|..] == rest;
      Utf16Iff(rest, rs[1..]);
      assert [rs[0]] + rs[1..] == rs;
    }
    if Decode(b) == Some(rs) && b != [] {
      EncodeDecodeRune(b);
      var (c, n) := DecodeRune(b).value;
      var more := Decode(b[n..]).value;
      Utf16Iff(b[n..], more);
      assert rs[1..] == more;
    }
  }

  lemma Utf16Injective(xs: seq<Rune>, ys: seq<Rune>)
    requires Encode(xs) == Encode(ys)
    ensures xs == ys
  {
    Utf16Iff(Encode(xs), xs);
    Utf16Iff(Encode(ys), ys);
  }

  // ----- expandDesKey -----

  // Octet `j` as the masks and shifts of the code compute it, before the last shift.
  function Septet(k: bytes, j: nat): (n: nat)
    requires |k| == 7 && j < 8
    ensures n < 128
  {
    if j == 0 then k[0] as int / 2
    else if j == 1 then k[0] as int % 2 * 64 + k[1] as int / 4
    else if j == 2 then k[1] as int % 4 * 32 + k[2] as int / 8
    else if j == 3 then k[2] as int % 8 * 16 + k[3] as int / 16
    else if j == 4 then k[3] as int % 16 * 8 + k[4] as int / 32
    else if j == 5 then k[4] as int % 32 * 4 + k[5] as int / 64
    else if j == 6 then k[5] as int % 64 * 2 + k[6] as int / 128
    else k[6] as int % 128
  }

  function Expanded(key: bytes): (e: bytes)
    requires |key| == 7
    ensures |e| == 8
  {
    seq(8, j requires 0 <= j < 8 => (2 * Septet(key, j)) as byte)
  }

  // Each octet first holds its seven bits ...
  method SpreadBits(key7: bytes, out: array<byte>)
    requires |key7| == 7 && out.Length == 8
    modifies out
    ensures forall j :: 0 <= j < 8 ==> out[j] as int == Septet(key7, j)
  {
    var k := seq(7, i requires 0 <= i < 7 => key7[i] as int);
    out[0] := (k[0] / 2) as byte;
    out[1] := (k[0] % 2 * 64 + k[1] / 4) as byte;
    out[2] := (k[1] % 4 * 32 + k[2] / 8) as byte;
    out[3] := (k[2] % 8 * 16 + k[3] / 16) as byte;
    out[4] := (k[3] % 16 * 8 + k[4] / 32) as byte;
    out[5] := (k[4] % 32 * 4 + k[5] / 64) as byte;
    out[6] := (k[5] % 64 * 2 + k[6] / 128) as byte;
    out[7] := (k[6] % 128) as byte;
  }

  // ... and is then shifted to the left in place.
  method ExpandDesKey(key7: bytes) returns (out: array<byte>)
    requires |key7| == 7
    ensures fresh(out) && out[..] == Expanded(key7)
  {
    out := new byte[8];
    SpreadBits(key7, out);
    ghost var was := out[..];
    assert forall j :: 0 <= j < 8 ==> was[j] as int == Septet(key7, j);
    for i := 0 to 8
      invariant forall j :: 0 <= j < 8 ==> out[j] as int == if j < i then 2 * was[j] as int else was[j] as int
    {
      assert was[i] as int == Septet(key7, i);
      out[i] := ((2 * out[i] as int) % 256) as byte;
    }
    Doubled(key7, was, out[..]);
  }

  lemma Doubled(key7: bytes, was: bytes, now: bytes)
    requires |key7| == 7 && |was| == |now| == 8
    requires forall j :: 0 <= j < 8 ==> was[j] as int == Septet(key7, j)
    requires forall j :: 0 <= j < 8 ==> now[j] as int == 2 * was[j] as int
    ensures now == Expanded(key7)
  {
    forall j | 0 <= j < 8
      ensures now[j] == Expanded(key7)[j]
    {
      assert now[j] as int == 2 * Septet(key7, j);
    }
  }

  // The number whose binary digits are the first `n` octets.
  function Octets(k: bytes, n: nat): nat
    requires n <= |k|
  {
    if n == 0 then 0 else 256 * Octets(k, n - 1) + k[n - 1] as int
  }

  // The number whose binary digits are the top seven bits of the first `n` octets.
  function Septets(e: bytes, n: nat): nat
    requires n <= |e|
  {
    if n == 0 then 0 else 128 * Septets(e, n - 1) + e[n - 1] as int / 2
  }

  predicate AllEven(e: bytes) {
    forall i :: 0 <= i < |e| ==> e[i] % 2 == 0
  }

  lemma SeptetOf(k: bytes, j: nat)
    requires |k| == 7 && j < 8
    ensures Septets(Expanded(k), j + 1) == 128 * Septets(Expanded(k), j) + Septet(k, j)
  {
    assert Expanded(k)[j] as int / 2 == Septet(k, j);
  }

  // The first `j` octets carry the first 7j bits, the first half of the way ...
  lemma FirstHalf(k: bytes)
    requires |k| == 7
    ensures Septets(Expanded(k), 4) == 16 * Octets(k, 3) + k[3] as int / 16
  {
    var e := Expanded(k);
    SeptetOf(k, 0);
    assert Septets(e, 0) == 0 && Octets(k, 0) == 0;
    assert Septets(e, 1) == k[0] as int / 2;
    SeptetOf(k, 1);
    assert Octets(k, 1) == k[0] as int;
    assert Septets(e, 2) == 64 * Octets(k, 1) + k[1] as int / 4;
    SeptetOf(k, 2);
    assert Octets(k, 2) == 256 * Octets(k, 1) + k[1] as int;
    assert Septets(e, 3) == 32 * Octets(k, 2) + k[2] as int / 8;
    SeptetOf(k, 3);
    assert Octets(k, 3) == 256 * Octets(k, 2) + k[2] as int;
  }

  // ... and to the end.
  lemma SecondHalf(k: bytes)
    requires |k| == 7
    ensures Septets(Expanded(k), 8) == Octets(k, 7)
  {
    var e := Expanded(k);
    FirstHalf(k);
    SeptetOf(k, 4);
    assert Octets(k, 4) == 256 * Octets(k, 3) + k[3] as int;
    assert Septets(e, 5) == 8 * Octets(k, 4) + k[4] as int / 32;
    SeptetOf(k, 5);
    assert Octets(k, 5) == 256 * Octets(k, 4) + k[4] as int;
    assert Septets(e, 6) == 4 * Octets(k, 5) + k[5] as int / 64;
    SeptetOf(k, 6);
    assert Octets(k, 6) == 256 * Octets(k, 5) + k[5] as int;
    assert Septets(e, 7) == 2 * Octets(k, 6) + k[6] as int / 128;
    SeptetOf(k, 7);
    assert Octets(k, 7) == 256 * Octets(k, 6) + k[6] as int;
  }

  lemma {:induction false} SeptetsUnique(x: bytes, y: bytes, n: nat)
    requires n <= |x| && n <= |y| && AllEven(x) && AllEven(y) && Septets(x, n) == Septets(y, n)
    ensures x[..n] == y[..n]
  {
    if n > 0 {
      var a, b := x[n - 1] as int / 2, y[n - 1] as int / 2;
      assert x[n - 1] % 2 == 0 && y[n - 1] % 2 == 0;
      assert a == b && Septets(x, n - 1) == Septets(y, n - 1);
      SeptetsUnique(x, y, n - 1);
      assert x[..n] == x[..n - 1] + [x[n - 1]] && y[..n] == y[..n - 1] + [y[n - 1]];
    }
  }

  lemma {:induction false} OctetsUnique(x: bytes, y: bytes, n: nat)
    requires n <= |x| && n <= |y| && Octets(x, n) == Octets(y, n)
    ensures x[..n] == y[..n]
  {
    if n > 0 {
      assert x[n - 1] == y[n - 1] && Octets(x, n - 1) == Octets(y, n - 1);
      OctetsUnique(x, y, n - 1);
      assert x[..n] == x[..n - 1] + [x[n - 1]] && y[..n] == y[..n - 1] + [y[n - 1]];
    }
  }

  // The expanded key is the one string of eight octets with zero low bits whose top
  // seven bits, read in order, are the 56 bits of the input.
  lemma ExpandedIff(key: bytes, e: bytes)
    requires |key| == 7
    ensures e == Expanded(key) <==> |e| == 8 && AllEven(e) && Septets(e, 8) == Octets(key, 7)
  {
    SecondHalf(key);
    EvenOctets(key);
    if |e| == 8 && AllEven(e) && Septets(e, 8) == Octets(key, 7) {
      SeptetsUnique(e, Expanded(key), 8);
      assert e[..8] == e && Expanded(key)[..8] == Expanded(key);
    }
  }

  lemma EvenOctets(key: bytes)
    requires |key| == 7
    ensures AllEven(Expanded(key))
  {
    var e := Expanded(key);
    forall i | 0 <= i < 8
      ensures e[i] % 2 == 0
    {
      assert e[i] as int == 2 * Septet(key, i);
    }
  }

  // Distinct 56-bit inputs give distinct DES keys.
  lemma ExpandInjective(x: bytes, y: bytes)
    requires |x| == 7 && |y| == 7 && Expanded(x) == Expanded(y)
    ensures x == y
  {
    SecondHalf(x);
    SecondHalf(y);
    OctetsUnique(x, y, 7);
    assert x[..7] == x && y[..7] == y;
  }

  // The three DES keys of desEncryptNTResponse; the last is filled up with zeros.
  function DesKeys(h: Block): (bytes, bytes, bytes) {
    (Expanded(h[..7]), Expanded(h[7..14]), Expanded(h[14..] + Zeros(5)))
  }

  lemma {:induction false} SeptetsAppend(x: bytes, y: bytes, n: nat)
    requires n <= |y|
    ensures Septets(x + y, |x| + n) == Septets(x, |x|) * Pow128(n) + Septets(y, n)
  {
    if n == 0 {
      SeptetsPrefix(x, y, |x|);
    } else {
      SeptetsAppend(x, y, n - 1);
      assert (x + y)[|x| + n - 1] == y[n - 1];
      Shift128(Septets(x, |x|), Pow128(n - 1), Septets(y, n - 1));
    }
  }

  lemma {:induction false} SeptetsPrefix(x: bytes, y: bytes, n: nat)
    requires n <= |x|
    ensures Septets(x + y, n) == Septets(x, n)
  {
    if n > 0 {
      SeptetsPrefix(x, y, n - 1);
    }
  }

  function Pow128(n: nat): nat {
    if n == 0 then 1 else 128 * Pow128(n - 1)
  }

  lemma Shift128(a: int, p: int, b: int)
    ensures 128 * (a * p + b) == a * (128 * p) + 128 * b
  {
  }

  lemma {:induction false} OctetsAppend(x: bytes, y: bytes, n: nat)
    requires n <= |y|
    ensures Octets(x + y, |x| + n) == Octets(x, |x|) * Pow256(n) + Octets(y, n)
  {
    if n == 0 {
      OctetsPrefix(x, y, |x|);
    } else {
      OctetsAppend(x, y, n - 1);
      assert (x + y)[|x| + n - 1] == y[n - 1];
      Shift256(Octets(x, |x|), Pow256(n - 1), Octets(y, n - 1));
    }
  }

  lemma {:induction false} OctetsPrefix(x: bytes, y: bytes, n: nat)
    requires n <= |x|
    ensures Octets(x + y, n) == Octets(x, n)
  {
    if n > 0 {
      OctetsPrefix(x, y, n - 1);
    }
  }

  function Pow256(n: nat): nat {
    if n == 0 then 1 else 256 * Pow256(n - 1)
  }

  lemma Shift256(a: int, p: int, b: int)
    ensures 256 * (a * p + b) == a * (256 * p) + 256 * b
  {
  }

  lemma SevenOctets()
    ensures Pow128(8) == Pow256(7)
  {
    assert Pow128(4) == 0x1000_0000 && Pow256(3) == 0x100_0000;
    assert Pow128(6) == 0x400_0000_0000 && Pow256(5) == 0x100_0000_0000;
  }

  // Section 8.7 of RFC 2759: read in order, the 168 bits of the three keys are the 128 bits
  // of the hash and 40 zeros.
  lemma DesKeysBits(h: Block)
    ensures (var (a, b, c) := DesKeys(h);
             |a| == |b| == |c| == 8 && AllEven(a) && AllEven(b) && AllEven(c)
             && Septets(a + (b + c), 24) == Octets(h + [0, 0, 0, 0, 0], 21))
  {
    var (a, b, c) := DesKeys(h);
    var x, y, z := h[..7], h[7..14], h[14..] + Zeros(5);
    ExpandedIff(x, a);
    ExpandedIff(y, b);
    ExpandedIff(z, c);
    SeptetsAppend(b, c, 8);
    SeptetsAppend(a, b + c, 16);
    OctetsAppend(y, z, 7);
    OctetsAppend(x, y + z, 14);
    assert x + (y + z) == h + [0, 0, 0, 0, 0];
    SixteenSeptets();
  }

  lemma SixteenSeptets()
    ensures Pow128(8) == Pow256(7) && Pow128(16) == Pow256(14)
  {
    SevenOctets();
    PowTwice(8, 7);
  }

  lemma PowTwice(m: nat, n: nat)
    requires Pow128(m) == Pow256(n)
    ensures Pow128(m + m) == Pow256(n + n)
  {
    Pow128Add(m, m);
    Pow256Add(n, n);
  }

  lemma {:induction false} Pow128Add(a: nat, b: nat)
    ensures Pow128(a + b) == Pow128(a) * Pow128(b)
  {
    if a > 0 {
      Pow128Add(a - 1, b);
      Shift128(Pow128(a - 1), Pow128(b), 0);
    }
  }

  lemma {:induction false} Pow256Add(a: nat, b: nat)
    ensures Pow256(a + b) == Pow256(a) * Pow256(b)
  {
    if a > 0 {
      Pow256Add(a - 1, b);
      Shift256(Pow256(a - 1), Pow256(b), 0);
    }
  }

  // Together they still hold the whole 16-octet hash.
  lemma DesKeysInjective(x: Block, y: Block)
    requires DesKeys(x) == DesKeys(y)
    ensures x == y
  {
    ExpandInjective(x[..7], y[..7]);
    ExpandInjective(x[7..14], y[7..14]);
    ExpandInjective(x[14..] + Zeros(5), y[14..] + Zeros(5));
    assert (x[14..] + Zeros(5))[..2] == x[14..] && (y[14..] + Zeros(5))[..2] == y[14..];
    assert x == x[..7] + x[7..14] + x[14..] && y == y[..7] + y[7..14] + y[14..];
  }
}
