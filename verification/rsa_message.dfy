/** `Message` of rsa/rsa.py:164-243: a byte string packed into integers
    below the key's modulus. Each integer holds `base / 8 - 1` bytes, big
    endian, where `base` is the bit length of the modulus rounded up to a
    multiple of 8, so every item is smaller than the modulus. The last item
    is padded with zero bytes at its low end and `overflow` records how
    many of its bytes are real. */
module RSAMessage {
  import opened Wrappers
  import opened RSAArith

  /** One character of a Python 2 byte string, as `ord` gives it. */
  type Byte = b: int | 0 <= b < 256

  datatype Message = Message(numbers: seq<int>, modulo: int, overflow: int)

  datatype DecodeError = DecodeRangeError

  function Pow256(e: nat): (r: nat)
    ensures r >= 1
  {
    if e == 0 then 1 else 256 * Pow256(e - 1)
  }

  lemma {:induction false} Pow256IsPow2(e: nat)
    ensures Pow256(e) == Pow2(8 * e)
  {
    if e > 0 {
      Pow256IsPow2(e - 1);
      Pow2Add(8, 8 * (e - 1));
      assert Pow2(8) == 256;
    }
  }

  // ---------------------------------------------------------------------------
  // Item width (`_base_from_modulo`, lines 234-236)

  /** `ceil(log2(m))`, exactly: the fewest bits that count up to `m`. */
  function CeilLog2(m: nat): (r: nat)
    requires m >= 1
    ensures m <= Pow2(r)
    ensures r >= 1 ==> Pow2(r - 1) < m
  {
    BitLength(m - 1)
  }

  /** `_base_from_modulo`: `ceil(log2(m) / 8) * 8`, the smallest multiple of
      8 bits whose range reaches `m`. */
  function BaseFromModulo(m: nat): (base: nat)
    requires m >= 1
    ensures base % 8 == 0
    ensures m <= Pow2(base)
    ensures base >= 8 ==> Pow2(base - 8) < m
  {
    var c := CeilLog2(m);
    var base := (c + 7) / 8 * 8;
    Pow2Monotone(c, base);
    if base >= 8 then Pow2Monotone(base - 8, c - 1); base else base
  }

  /** `bytes_per_item = base / 8 - 1`: at least one byte for a modulus above
      256, and small enough that every item stays below the modulus. */
  function BytesPerItem(m: nat): (bpi: nat)
    requires m > 256
    ensures bpi >= 1
    ensures Pow256(bpi) < m
  {
    var base := BaseFromModulo(m);
    assert base >= 16 by {
      if base < 16 {
        assert Pow2(8) == 256;
        Pow2Monotone(base, 8);
      }
    }
    Pow256IsPow2(base / 8 - 1);
    base / 8 - 1
  }

  // ---------------------------------------------------------------------------
  // Bytes and numbers

  /** `num = (num << 8) + ord(byte)` over a run of bytes: big-endian value. */
  function BytesToNat(bs: seq<Byte>): (n: nat)
    ensures n < Pow256(|bs|)
  {
    if |bs| == 0 then 0
    else BytesToNat(bs[..|bs| - 1]) * 256 + bs[|bs| - 1]
  }

  /** `chr(((0xFF << (i * 8)) & n) >> (i * 8))` for i from len - 1 down to 0:
      the low `len` bytes of `n`, most significant first. */
  function NatToBytes(n: nat, len: nat): (bs: seq<Byte>)
    ensures |bs| == len
  {
    seq(len, j requires 0 <= j < len => (n / Pow256(len - 1 - j)) % 256)
  }

  function Zeros(k: nat): (z: seq<Byte>)
    ensures |z| == k && forall i :: 0 <= i < k ==> z[i] == 0
  {
    seq(k, _ => 0)
  }

  /** Byte `e + 1` from the bottom of `b * 256 + d` is byte `e` of `b`. */
  lemma ShiftedDigit(b: nat, d: Byte, e: nat)
    ensures ((b * 256 + d) / Pow256(e + 1)) % 256 == (b / Pow256(e)) % 256
  {
    ModShift(b, 256, d);
    ModUnique(d, 256, 0, d);
    DivDiv(b * 256 + d, 256, Pow256(e));
  }

  /** Appending a byte to a number's low end appends it to its bytes. */
  lemma NatToBytesSnoc(b: nat, d: Byte, len: nat)
    ensures NatToBytes(b * 256 + d, len + 1) == NatToBytes(b, len) + [d]
  {
    var n := b * 256 + d;
    forall j | 0 <= j < len + 1 ensures NatToBytes(n, len + 1)[j] == (NatToBytes(b, len) + [d])[j] {
      if j < len {
        var e := len - 1 - j;
        ShiftedDigit(b, d, e);
        assert NatToBytes(n, len + 1)[j] == (n / Pow256(e + 1)) % 256;
        assert NatToBytes(b, len)[j] == (b / Pow256(e)) % 256;
      } else {
        ModShift(b, 256, d);
        ModUnique(d, 256, 0, d);
        assert NatToBytes(n, len + 1)[j] == (n / Pow256(0)) % 256;
        assert n / Pow256(0) == n;
      }
    }
  }

  /** Reading bytes as a number and writing the number back as that many
      bytes gives the bytes back. */
  lemma {:induction false} BytesRoundTrip(bs: seq<Byte>)
    ensures NatToBytes(BytesToNat(bs), |bs|) == bs
  {
    if |bs| > 0 {
      var front := bs[..|bs| - 1];
      BytesRoundTrip(front);
      NatToBytesSnoc(BytesToNat(front), bs[|bs| - 1], |bs| - 1);
      assert front + [bs[|bs| - 1]] == bs;
    }
  }

  /** Shifting left by `8 * k` is appending `k` zero bytes. */
  lemma {:induction false} PadShift(bs: seq<Byte>, k: nat)
    ensures BytesToNat(bs + Zeros(k)) == BytesToNat(bs) * Pow256(k)
  {
    if k == 0 {
      assert bs + Zeros(0) == bs;
    } else {
      var shorter := bs + Zeros(k - 1);
      PadShift(bs, k - 1);
      assert bs + Zeros(k) == shorter + [0];
      AppendZero(shorter);
      MulAssoc(BytesToNat(bs), Pow256(k - 1), 256);
    }
  }

  lemma AppendZero(bs: seq<Byte>)
    ensures BytesToNat(bs + [0]) == BytesToNat(bs) * 256
  {
    assert (bs + [0])[..|bs|] == bs;
  }

  lemma MulAssoc(a: int, b: int, c: int)
    ensures a * b * c == a * (c * b)
  {
  }

  // ---------------------------------------------------------------------------
  // Encode (lines 184-205)

  /** Item `i`: the bytes `i * bpi .. (i + 1) * bpi` (fewer at the end),
      shifted up so that a short last chunk is padded with zero bytes. */
  function EncodeItem(data: seq<Byte>, bpi: nat, i: nat): (num: nat)
    requires bpi >= 1 && i * bpi < |data|
    ensures num < Pow256(bpi)
  {
    var end := (i + 1) * bpi;
    if end > |data| then
      var chunk := data[i * bpi..];
      PadShift(chunk, end - |data|);
      assert |chunk + Zeros(end - |data|)| == bpi;
      BytesToNat(chunk) * Pow256(end - |data|)
    else
      BytesToNat(data[i * bpi..end])
  }

  /** `ceil(len / bpi)` items cover exactly the bytes. */
  lemma ItemInRange(i: nat, len: nat, bpi: nat)
    requires bpi >= 1 && i < (len + bpi - 1) / bpi
    ensures i * bpi < len
  {
    var count := (len + bpi - 1) / bpi;
    assert count * bpi <= len + bpi - 1;
    assert (i + 1) * bpi <= count * bpi by {
      MulLe(i + 1, count, bpi, bpi);
    }
  }

  function ItemCount(len: nat, bpi: nat): nat
    requires bpi >= 1
  {
    (len + bpi - 1) / bpi
  }

  function Encode(data: seq<Byte>, modulo: nat): (msg: Message)
    requires modulo > 256
    ensures msg.modulo == modulo
    ensures var bpi := BytesPerItem(modulo);
      && |msg.numbers| * bpi >= |data| > |msg.numbers| * bpi - bpi
      && 1 <= msg.overflow <= bpi
      && forall i :: 0 <= i < |msg.numbers| ==> 0 <= msg.numbers[i] < Pow256(bpi) && msg.numbers[i] < modulo
  {
    var bpi := BytesPerItem(modulo);
    var count := ItemCount(|data|, bpi);
    var overflow := if |data| % bpi == 0 then bpi else |data| % bpi;
    CountBounds(|data|, bpi);
    Message(seq(count, i requires 0 <= i < count => ItemInRange(i, |data|, bpi); EncodeItem(data, bpi, i)),
            modulo, overflow)
  }

  /** The count and the padding of the last item. */
  lemma CountBounds(len: nat, bpi: nat)
    requires bpi >= 1
    ensures ItemCount(len, bpi) * bpi >= len > ItemCount(len, bpi) * bpi - bpi
    ensures len % bpi == 0 ==> ItemCount(len, bpi) * bpi == len
    ensures len % bpi != 0 ==> ItemCount(len, bpi) * bpi - len == bpi - len % bpi
  {
    var q, r := len / bpi, len % bpi;
    assert len == q * bpi + r;
    if r == 0 {
      ModUnique(len + bpi - 1, bpi, q, bpi - 1);
    } else {
      ModUnique(len + bpi - 1, bpi, q + 1, r - 1);
    }
  }

  // ---------------------------------------------------------------------------
  // Decode (lines 207-226)

  predicate InRange(numbers: seq<int>, bpi: nat)
  {
    forall i :: 0 <= i < |numbers| ==> 0 <= numbers[i] < Pow256(bpi)
  }

  /** The bytes of all items, `bpi` per item. */
  function Unpack(numbers: seq<int>, bpi: nat): (bytes: seq<Byte>)
    requires InRange(numbers, bpi)
    ensures |bytes| == |numbers| * bpi
  {
    if |numbers| == 0 then []
    else Unpack(numbers[..|numbers| - 1], bpi) + NatToBytes(numbers[|numbers| - 1], bpi)
  }

  /** Python's `s[:-k]` for `k >= 1`: all but the last `k` elements. */
  function DropLast<T>(s: seq<T>, k: nat): (r: seq<T>)
    requires k >= 1
    ensures |r| == if k >= |s| then 0 else |s| - k
    ensures r == s[..|r|]
  {
    s[..if k >= |s| then 0 else |s| - k]
  }

  function Decode(msg: Message): (r: Result<seq<Byte>, DecodeError>)
    requires msg.modulo > 256
    ensures r.Failure? <==> exists i :: 0 <= i < |msg.numbers| && !(0 <= msg.numbers[i] < Pow256(BytesPerItem(msg.modulo)))
    ensures r.Success? ==> |r.value| <= |msg.numbers| * BytesPerItem(msg.modulo)
  {
    var bpi := BytesPerItem(msg.modulo);
    if InRange(msg.numbers, bpi) then
      var raw := Unpack(msg.numbers, bpi);
      if msg.overflow < bpi then Success(DropLast(raw, bpi - msg.overflow)) else Success(raw)
    else
      Failure(DecodeRangeError)
  }

  lemma UnpackSnoc(numbers: seq<int>, bpi: nat, j: nat)
    requires InRange(numbers, bpi) && j < |numbers|
    ensures Unpack(numbers[..j + 1], bpi) == Unpack(numbers[..j], bpi) + NatToBytes(numbers[j], bpi)
  {
    assert numbers[..j + 1][..j] == numbers[..j];
  }

  /** The bytes of item `i` are its chunk of the data, zero-padded. */
  lemma ItemBytes(data: seq<Byte>, bpi: nat, i: nat)
    requires bpi >= 1 && i * bpi < |data|
    ensures (i + 1) * bpi <= |data| ==> NatToBytes(EncodeItem(data, bpi, i), bpi) == data[i * bpi..(i + 1) * bpi]
    ensures (i + 1) * bpi > |data| ==> NatToBytes(EncodeItem(data, bpi, i), bpi) == data[i * bpi..] + Zeros((i + 1) * bpi - |data|)
  {
    var end := (i + 1) * bpi;
    if end > |data| {
      var chunk := data[i * bpi..];
      PadShift(chunk, end - |data|);
      BytesRoundTrip(chunk + Zeros(end - |data|));
    } else {
      BytesRoundTrip(data[i * bpi..end]);
    }
  }

  lemma EncodeAt(data: seq<Byte>, modulo: nat, i: nat)
    requires modulo > 256 && i < |Encode(data, modulo).numbers|
    ensures i * BytesPerItem(modulo) < |data|
    ensures Encode(data, modulo).numbers[i] == EncodeItem(data, BytesPerItem(modulo), i)
  {
    ItemInRange(i, |data|, BytesPerItem(modulo));
  }

  /** The first `j` items unpack to the data they were made from, followed
      by the padding once the data runs out. */
  ghost predicate PrefixMatches(data: seq<Byte>, bpi: nat, raw: seq<Byte>, j: nat)
  {
    if j * bpi <= |data| then raw == data[..j * bpi] else raw == data + Zeros(j * bpi - |data|)
  }

  lemma UnpackStep(data: seq<Byte>, bpi: nat, items: seq<int>, i: nat)
    requires bpi >= 1 && InRange(items, bpi) && i < |items| && i * bpi < |data|
    requires items[i] == EncodeItem(data, bpi, i)
    requires PrefixMatches(data, bpi, Unpack(items[..i], bpi), i)
    ensures PrefixMatches(data, bpi, Unpack(items[..i + 1], bpi), i + 1)
  {
    UnpackSnoc(items, bpi, i);
    ItemBytes(data, bpi, i);
    var j := i + 1;
    if j * bpi <= |data| {
      assert data[..j * bpi] == data[..i * bpi] + data[i * bpi..j * bpi];
    } else {
      assert data == data[..i * bpi] + data[i * bpi..];
    }
  }

  /** Unpacking the first `j` items of an encoding gives the bytes they
      were made from, followed by the padding once the data runs out. */
  lemma {:induction false} UnpackPrefix(data: seq<Byte>, modulo: nat, j: nat)
    requires modulo > 256
    requires j <= |Encode(data, modulo).numbers|
    ensures PrefixMatches(data, BytesPerItem(modulo), Unpack(Encode(data, modulo).numbers[..j], BytesPerItem(modulo)), j)
  {
    var bpi := BytesPerItem(modulo);
    var items := Encode(data, modulo).numbers;
    if j == 0 {
      assert items[..0] == [];
    } else {
      UnpackPrefix(data, modulo, j - 1);
      EncodeAt(data, modulo, j - 1);
      UnpackStep(data, bpi, items, j - 1);
    }
  }

  /** `Decode` undoes `Encode`: the padding is dropped by `overflow`. */
  lemma EncodeDecode(data: seq<Byte>, modulo: nat)
    requires modulo > 256
    ensures Decode(Encode(data, modulo)) == Success(data)
  {
    var msg := Encode(data, modulo);
    var bpi := BytesPerItem(modulo);
    var count := |msg.numbers|;
    UnpackPrefix(data, modulo, count);
    assert msg.numbers[..count] == msg.numbers;
    CountBounds(|data|, bpi);
    var raw := Unpack(msg.numbers, bpi);
    if |data| % bpi != 0 {
      assert raw == data + Zeros(bpi - msg.overflow);
      assert DropLast(raw, bpi - msg.overflow) == data;
    } else {
      assert raw == data[..|data|] == data;
    }
  }

  // ---------------------------------------------------------------------------
  // Mapped (lines 228-232)

  /** Applies `f` to every number, keeping the modulus and the overflow; the
      results are not range-checked. */
  function Mapped(msg: Message, f: int -> int): (r: Message)
    ensures r.modulo == msg.modulo && r.overflow == msg.overflow
    ensures |r.numbers| == |msg.numbers|
    ensures forall i :: 0 <= i < |msg.numbers| ==> r.numbers[i] == f(msg.numbers[i])
  {
    Message(seq(|msg.numbers|, i requires 0 <= i < |msg.numbers| => f(msg.numbers[i])), msg.modulo, msg.overflow)
  }

  /** Mapping with `f` and then with a `g` that undoes `f` on the numbers
      present restores the message, so it decodes as before; this is how
      encryption followed by decryption acts on a message. */
  lemma MappedInverse(msg: Message, f: int -> int, g: int -> int)
    requires forall i :: 0 <= i < |msg.numbers| ==> g(f(msg.numbers[i])) == msg.numbers[i]
    ensures Mapped(Mapped(msg, f), g) == msg
  {
    var r := Mapped(Mapped(msg, f), g);
    assert r.numbers == msg.numbers;
  }
}
