/**
  The djb2 string hash of hashtable/hashtable.c (hash_djb2).

  The C code keeps the hash in an `unsigned long` (64 bits on the LP64
  targets the program is built for), so every arithmetic step wraps modulo
  2^64. Each byte is read through `int c = *str++` from a `const char*`;
  `char` is signed on x86-64, so a byte of 0x80 or more contributes a
  negative `c`, which the conversion to `unsigned long` turns into
  `c + 2^64`. Dafny's `%` is Euclidean, so `(h + c) % ULONG_MODULUS` is
  exactly that conversion followed by the wrapping addition.
 */
module Hash {

  /** An 8-bit byte of a key or value buffer. */
  type byte = b: int | 0 <= b < 256

  type Bytes = seq<byte>

  /** 2^64: `unsigned long` arithmetic wraps modulo this. */
  const ULONG_MODULUS: nat := 0x1_0000_0000_0000_0000

  type ulong = h: int | 0 <= h < ULONG_MODULUS

  /** The seed of the hash. */
  const SEED: ulong := 5381

  /** The value of `*str` read into an `int` when `char` is signed. */
  function CharValue(b: byte): (c: int)
    ensures -128 <= c < 128
    ensures c % 256 == b
  {
    if b < 128 then b else b - 256
  }

  /** `hash << 5` on an `unsigned long`: the bits shifted out are lost.
      The low five bits of the result are clear, and a hash below 2^59
      loses nothing. */
  function ShiftLeft5(h: ulong): (r: ulong)
    ensures r % 32 == 0
    ensures h < ULONG_MODULUS / 32 ==> r == 32 * h
  {
    (h * 32) % ULONG_MODULUS
  }

  /** One round of the loop body as the C code writes it:
      `hash = ((hash << 5) + hash) + c`, each addition wrapping. The
      shift-and-add form computes `hash * 33 + c` modulo 2^64. */
  function ShiftAddStep(h: ulong, b: byte): (r: ulong)
    ensures r == (33 * h + CharValue(b)) % ULONG_MODULUS
  {
    ModAddLeft(h * 32, h);
    assert (ShiftLeft5(h) + h) % ULONG_MODULUS == (33 * h) % ULONG_MODULUS;
    ModAddLeft(33 * h, CharValue(b));
    ((ShiftLeft5(h) + h) % ULONG_MODULUS + CharValue(b)) % ULONG_MODULUS
  }

  /** The hash of a key, as the mathematical recurrence the algorithm is
      known by: start at 5381, then `hash * 33 + c` per byte, modulo 2^64. */
  function Djb2(s: Bytes): ulong
  {
    if |s| == 0 then SEED
    else (33 * Djb2(s[..|s| - 1]) + CharValue(s[|s| - 1])) % ULONG_MODULUS
  }

  /** Reducing the left operand first does not change a wrapped sum. */
  lemma ModAddLeft(a: int, b: int)
    ensures (a % ULONG_MODULUS + b) % ULONG_MODULUS == (a + b) % ULONG_MODULUS
  {
    var q := a / ULONG_MODULUS;
    assert a + b == (a % ULONG_MODULUS + b) + q * ULONG_MODULUS;
  }

  /** Appending a byte to a key advances its hash by one round. */
  lemma Djb2Snoc(s: Bytes, b: byte)
    ensures Djb2(s + [b]) == ShiftAddStep(Djb2(s), b)
  {
    assert (s + [b])[..|s|] == s;
  }

  /** hash_djb2: the loop over the bytes before the terminator, in the
      shift-and-add form of the source. A C string ends at its first NUL,
      so the bytes walked are the whole of `str` here. */
  method HashDjb2(str: Bytes) returns (hash: ulong)
    ensures hash == Djb2(str)
  {
    hash := SEED;
    var i := 0;
    while i < |str|
      invariant 0 <= i <= |str|
      invariant hash == Djb2(str[..i])
    {
      var c := str[i];
      Djb2Snoc(str[..i], c);
      assert str[..i] + [c] == str[..i + 1];
      assert ShiftAddStep(hash, c) == ((ShiftLeft5(hash) + hash) % ULONG_MODULUS + CharValue(c)) % ULONG_MODULUS;
      hash := ((ShiftLeft5(hash) + hash) % ULONG_MODULUS + CharValue(c)) % ULONG_MODULUS;
      i := i + 1;
    }
    assert str[..i] == str;
  }
}
